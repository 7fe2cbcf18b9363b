/** What a connection queues and writes in answer to a stream: the endpoint's replies, Pongs and Close frames
    (ws/websocket.h). */
module Answering {
  import opened ByteArrays
  import opened Frames
  import opened Messages
  import opened Extensions
  import opened FrameBuilding
  import opened MessageParsing
  import opened Protocol
  import opened Handling

  // ---- What the callbacks leave behind -----------------------------------------------

  /** The shared state after the operations made. */
  function Stored(h: Handled): Shared {
    ExecAll(SHARED_OPENED, h.ops)
  }

  /** The messages an endpoint sends before it closes the connection, if it does. */
  function RepliesOf(rs: seq<Reaction>): seq<Sent> {
    if rs == [] || rs[0].HangUp? then [] else [rs[0].sent] + RepliesOf(rs[1..])
  }

  /** What it sends in reaction to each of the messages, handed to it after those of the past. */
  function RepliesTo(endpoint: Endpoint, past: seq<Message>, messages: seq<Message>): seq<Sent>
    decreases |messages|
  {
    if messages == [] then []
    else
      var seen := past + [messages[0]];
      RepliesOf(endpoint(seen)) + RepliesTo(endpoint, seen, messages[1..])
  }

  function AllPermits(exts: seq<Extension>, sents: seq<Sent>): nat {
    if sents == [] then 0 else sents[0].Permits(exts) + AllPermits(exts, sents[1..])
  }

  /** The Close frame with which an endpoint closes the connection, if it does. */
  function HangUpFrames(rs: seq<Reaction>): seq<Frame> {
    if rs == [] then []
    else if rs[0].Reply? then HangUpFrames(rs[1..])
    else [ControlFrame(8, [rs[0].code / 256 % 256, rs[0].code % 256] + rs[0].reason)]
  }

  /** The control frames written while events are handled on an open connection: a Pong for every Ping, and the Close
      that ends it, the peer's repeated or the endpoint's own. */
  function Answers(endpoint: Endpoint, past: seq<Message>, events: seq<Event>): seq<Frame>
    decreases |events|
  {
    if events == [] then []
    else
      match events[0]
      case Control(f) =>
        if f.header.opcode == 8 then [ControlFrame(8, f.payload)]
        else (if f.header.opcode == 9 then [ControlFrame(10, f.payload)] else []) + Answers(endpoint, past, events[1..])
      case Delivered(m) =>
        var rs := endpoint(past + [m]);
        HangUpFrames(rs) + if Closes(rs) then [] else Answers(endpoint, past + [m], events[1..])
  }

  // ---- Operations together -------------------------------------------------------------------

  lemma {:induction false} ExecAllConcat(s: Shared, a: seq<Op>, b: seq<Op>)
    ensures ExecAll(s, a + b) == ExecAll(ExecAll(s, a), b)
    decreases |b|
  {
    if b == [] {
      assert a + b == a;
    } else {
      assert a + b == (a + b[..|b| - 1]) + [b[|b| - 1]];
      ExecAllConcat(s, a, b[..|b| - 1]);
      ExecAllSnoc(s, a + b[..|b| - 1], b[|b| - 1]);
    }
  }

  lemma {:induction false} ExecPosts(s: Shared, n: nat)
    ensures ExecAll(s, Posts(n)) == s.(permits := s.permits + n)
  {
    if n == 0 {
    } else {
      assert Posts(n) == Posts(n - 1) + [SemPost];
      ExecPosts(s, n - 1);
      ExecAllSnoc(s, Posts(n - 1), SemPost);
    }
  }

  lemma ExecOne(s: Shared, op: Op)
    ensures ExecAll(s, [op]) == Exec(s, op)
  {
    ExecAllSnoc(s, [], op);
    assert [] + [op] == [op];
  }

  lemma ExecSend(s: Shared, fs: seq<Frame>, n: nat)
    ensures ExecAll(s, [LockQueue, PushFrames(fs)] + Posts(n) + [UnlockQueue])
         == s.(queue := s.queue + fs, permits := s.permits + n, locked := false)
  {
    hide ExecAll;
    ExecAllSnoc(s, [LockQueue], PushFrames(fs));
    assert [LockQueue] + [PushFrames(fs)] == [LockQueue, PushFrames(fs)];
    ExecOne(s, LockQueue);
    ExecAllConcat(s, [LockQueue, PushFrames(fs)], Posts(n));
    ExecPosts(ExecAll(s, [LockQueue, PushFrames(fs)]), n);
    ExecAllSnoc(s, [LockQueue, PushFrames(fs)] + Posts(n), UnlockQueue);
  }

  /** Two states of a connection: what was queued, posted and written in between. */
  predicate Grew(s: Shared, t: Shared, queued: seq<Frame>, posted: nat, written: seq<Frame>) {
    t.queue == s.queue + queued && t.permits == s.permits + posted && t.out == s.out + written
  }

  lemma GrewTwice(r: Shared, s: Shared, t: Shared, q: seq<Frame>, q': seq<Frame>, p: nat, p': nat, w: seq<Frame>,
                  w': seq<Frame>)
    requires Grew(r, s, q, p, w) && Grew(s, t, q', p', w')
    ensures Grew(r, t, q + q', p + p', w + w')
  {
  }

  /** What the handled part of a connection grew by on the way from h to g. */
  predicate Added(h: Handled, g: Handled, queued: seq<Frame>, posted: nat, written: seq<Frame>) {
    Grew(Stored(h), Stored(g), queued, posted, written)
  }

  lemma NoOpsAdded(h: Handled, g: Handled)
    requires g.ops == h.ops + [] || g.ops == h.ops
    ensures Added(h, g, [], 0, [])
  {
    assert h.ops + [] == h.ops;
  }

  // ---- What one call adds --------------------------------------------------------------------

  lemma SendAdds(env: Env, h: Handled, sent: ValidSent)
    requires h.status == Open
    ensures Added(h, HandleCall(env, h, SendMessage(sent)), sent.Frames(env.exts), sent.Permits(env.exts), [])
  {
    var fs, n := sent.Frames(env.exts), sent.Permits(env.exts);
    hide ExecAll, Sent.Frames, Sent.Permits;
    ExecAllConcat(SHARED_OPENED, h.ops, [LockQueue, PushFrames(fs)] + Posts(n) + [UnlockQueue]);
    ExecSend(Stored(h), fs, n);
  }

  lemma ThreeOps(s: Shared, a: Op, b: Op, c: Op)
    ensures ExecAll(s, [a, b, c]) == Exec(Exec(Exec(s, a), b), c)
  {
    hide ExecAll, Exec;
    ExecOne(s, a);
    ExecAllSnoc(s, [a], b);
    ExecAllSnoc(s, [a, b], c);
    assert [a] + [b] == [a, b] && [a, b] + [c] == [a, b, c];
  }

  lemma CloseFrameIs(code: nat, reason: Bytes)
    ensures CloseFrame(code, reason) == ControlFrame(8, [code / 256 % 256, code % 256] + reason)
  {
    TwoByteForm(code);
    hide BigEndian;
  }

  lemma CloseAdds(env: Env, h: Handled, code: nat, reason: Bytes)
    requires h.status == Open
    ensures Added(h, HandleCall(env, h, Protocol.CloseConnection(code, reason)), [], 1,
                  [ControlFrame(8, [code / 256 % 256, code % 256] + reason)])
  {
    CloseFrameIs(code, reason);
    hide ExecAll, CloseFrame, ControlFrame;
    ExecAllConcat(SHARED_OPENED, h.ops, [WriteBytes(CloseFrame(code, reason)), SetStatus(Closing), SemPost]);
    ThreeOps(Stored(h), WriteBytes(CloseFrame(code, reason)), SetStatus(Closing), SemPost);
  }

  lemma NotOpenAddsNothing(env: Env, h: Handled, r: Reaction)
    requires h.status != Open
    ensures Added(h, HandleCall(env, h, CallOf(r)), [], 0, []) && HandleCall(env, h, CallOf(r)).status == h.status
  {
    NoOpsAdded(h, HandleCall(env, h, CallOf(r)));
  }

  lemma AddedTwice(h: Handled, g: Handled, f: Handled, q: seq<Frame>, q': seq<Frame>, p: nat, p': nat,
                   w: seq<Frame>, w': seq<Frame>)
    requires Added(h, g, q, p, w) && Added(g, f, q', p', w')
    ensures Added(h, f, q + q', p + p', w + w')
  {
    hide Stored;
    GrewTwice(Stored(h), Stored(g), Stored(f), q, q', p, p', w, w');
  }

  // ---- What the endpoint's reactions add -----------------------------------------------------

  /** The permits the endpoint's calls post: one for each frame it sends but an empty fragmented one, one for its
      hang-up. */
  function Posted(exts: seq<Extension>, rs: seq<Reaction>): nat {
    AllPermits(exts, RepliesOf(rs)) + if Closes(rs) then 1 else 0
  }

  lemma FirstIsReply(exts: seq<Extension>, rs: seq<Reaction>)
    requires rs != [] && rs[0].Reply?
    ensures AllFrames(exts, RepliesOf(rs)) == rs[0].sent.Frames(exts) + AllFrames(exts, RepliesOf(rs[1..]))
    ensures Posted(exts, rs) == rs[0].sent.Permits(exts) + Posted(exts, rs[1..])
    ensures HangUpFrames(rs) == [] + HangUpFrames(rs[1..])
  {
    hide Sent.Frames, Sent.Permits;
    assert rs == [rs[0]] + rs[1..];
    AllFramesConcat(exts, [rs[0].sent], RepliesOf(rs[1..]));
    OneMessagesFrames(exts, rs[0].sent);
    hide AllFrames;
    assert ([rs[0].sent] + RepliesOf(rs[1..]))[1..] == RepliesOf(rs[1..]);
  }

  lemma FirstIsHangUp(exts: seq<Extension>, rs: seq<Reaction>)
    requires rs != [] && rs[0].HangUp?
    ensures AllFrames(exts, RepliesOf(rs)) == [] && Posted(exts, rs) == 1
    ensures HangUpFrames(rs) == [ControlFrame(8, [rs[0].code / 256 % 256, rs[0].code % 256] + rs[0].reason)]
  {
    hide ControlFrame;
    assert rs[0] in rs;
  }

  lemma {:induction false} ClosedAddsNothing(env: Env, h: Handled, rs: seq<Reaction>)
    requires h.status != Open
    ensures Added(h, HandleReactions(env, h, rs), [], 0, [])
    decreases |rs|
  {
    if rs == [] {
      NoOpsAdded(h, h);
    } else {
      NotOpenAddsNothing(env, h, rs[0]);
      var g := HandleCall(env, h, CallOf(rs[0]));
      ClosedAddsNothing(env, g, rs[1..]);
      hide HandleCall, Added;
      var none: seq<Frame> := [];
      AddedTwice(h, g, HandleReactions(env, h, rs), none, none, 0, 0, none, none);
      assert none + none == none;
    }
  }

  lemma CallOfReply(r: Reaction)
    requires r.Reply?
    ensures CallOf(r) == SendMessage(r.sent)
  {
  }

  /** What the endpoint's calls add: the frames of what it sends before its first hang-up, in order, their permits and
      one for the hang-up, and the hang-up's Close frame. */
  lemma {:induction false} ReactionsAdd(env: Env, h: Handled, rs: seq<Reaction>)
    requires h.status == Open
    ensures Added(h, HandleReactions(env, h, rs), AllFrames(env.exts, RepliesOf(rs)), Posted(env.exts, rs),
                  HangUpFrames(rs))
    decreases |rs|
  {
    if rs == [] {
      NoOpsAdded(h, h);
    } else {
      var g, f := HandleCall(env, h, CallOf(rs[0])), HandleReactions(env, h, rs);
      assert f == HandleReactions(env, g, rs[1..]);
      if rs[0].Reply? {
        var sent := rs[0].sent;
        assert g.status == Open;
        hide *;
        ReactionsAdd(env, g, rs[1..]);
        FirstIsReply(env.exts, rs);
        assert CallOf(rs[0]) == SendMessage(sent) by {
          CallOfReply(rs[0]);
        }
        SendAdds(env, h, sent);
        AddedTwice(h, g, f, sent.Frames(env.exts), AllFrames(env.exts, RepliesOf(rs[1..])),
                   sent.Permits(env.exts), Posted(env.exts, rs[1..]), [], HangUpFrames(rs[1..]));
      } else {
        assert g.status != Open && CallOf(rs[0]) == Protocol.CloseConnection(rs[0].code, rs[0].reason);
        hide *;
        ClosedAddsNothing(env, g, rs[1..]);
        FirstIsHangUp(env.exts, rs);
        CloseAdds(env, h, rs[0].code, rs[0].reason);
        var w, none: seq<Frame> := HangUpFrames(rs), [];
        AddedTwice(h, g, f, none, none, 1, 0, w, none);
        assert w + none == w && none + none == none;
      }
    }
  }

  // ---- What one event adds -------------------------------------------------------------------

  lemma PeerCloseAdds(env: Env, endpoint: Endpoint, h: Handled, f: Frame)
    requires h.status == Open && f.header.opcode == 8
    ensures var g := HandleOne(env, endpoint, h, Control(f));
            g.status != Open && Added(h, g, [], 1, [ControlFrame(8, f.payload)])
  {
    var reply := CloseReply(f);
    assert reply == ControlFrame(8, f.payload);
    hide ExecAll, CloseReply, ControlFrame;
    ExecAllConcat(SHARED_OPENED, h.ops, [SetStatus(Closing), SemPost, WriteBytes(reply)]);
    ThreeOps(Stored(h), SetStatus(Closing), SemPost, WriteBytes(reply));
  }

  function PongFor(f: Frame): seq<Frame> {
    if f.header.opcode == 9 then [ControlFrame(10, f.payload)] else []
  }

  lemma OtherControlAdds(env: Env, endpoint: Endpoint, h: Handled, f: Frame)
    requires h.status == Open && f.header.opcode != 8
    ensures var g := HandleOne(env, endpoint, h, Control(f));
            g.status == Open && g.messages == h.messages && Added(h, g, [], 0, PongFor(f))
  {
    var g := HandleOne(env, endpoint, h, Control(f));
    if f.header.opcode == 9 {
      var pong := PongFrame(f);
      assert pong == ControlFrame(10, f.payload);
      hide ExecAll, PongFrame, ControlFrame;
      ExecAllSnoc(SHARED_OPENED, h.ops, WriteBytes(pong));
    } else {
      NoOpsAdded(h, g);
    }
  }

  lemma MessageAdds(env: Env, endpoint: Endpoint, h: Handled, m: Message)
    requires h.status == Open
    ensures var g := HandleOne(env, endpoint, h, Delivered(m));
            var rs := endpoint(h.messages + [m]);
            && g.messages == h.messages + [m] && g.status == (if Closes(rs) then Closing else Open)
            && Added(h, g, AllFrames(env.exts, RepliesOf(rs)), Posted(env.exts, rs), HangUpFrames(rs))
  {
    var messages := h.messages + [m];
    var k := h.(messages := messages);
    hide HandleReactions, Posted, AllFrames, RepliesOf, HangUpFrames, Closes;
    ReactionsStatus(env, k, endpoint(messages));
    ReactionsAdd(env, k, endpoint(messages));
  }

  lemma ClosedEventAdds(env: Env, endpoint: Endpoint, h: Handled, e: Event)
    requires h.status != Open
    ensures var g := HandleOne(env, endpoint, h, e);
            g.status != Open && Added(h, g, [], 0, [])
  {
    hide ExecAll;
    var g := HandleOne(env, endpoint, h, e);
    if e.Control? && e.frame.IsClose() && h.status == Closing {
      ExecAllSnoc(SHARED_OPENED, h.ops, SetStatus(Closed));
    } else {
      NoOpsAdded(h, g);
    }
  }

  lemma {:induction false} ClosedEventsAdd(env: Env, endpoint: Endpoint, h: Handled, events: seq<Event>)
    requires h.status != Open
    ensures Added(h, HandleAll(env, endpoint, h, events), [], 0, [])
    decreases |events|
  {
    if events == [] {
      NoOpsAdded(h, h);
    } else {
      ClosedEventAdds(env, endpoint, h, events[0]);
      var g := HandleOne(env, endpoint, h, events[0]);
      hide HandleOne, Added;
      ClosedEventsAdd(env, endpoint, g, events[1..]);
      var none: seq<Frame> := [];
      AddedTwice(h, g, HandleAll(env, endpoint, h, events), none, none, 0, 0, none, none);
      assert none + none == none;
    }
  }

  /** What the endpoint sends in reaction to the messages it hears. */
  function RepliesHeard(endpoint: Endpoint, past: seq<Message>, events: seq<Event>): seq<Sent> {
    RepliesTo(endpoint, past, Heard(endpoint, past, events))
  }

  /** The permits posted while events are handled on an open connection: those of what the endpoint sends, and one
      for the close, whichever side it comes from. */
  function PostedFor(exts: seq<Extension>, endpoint: Endpoint, past: seq<Message>, events: seq<Event>): nat {
    AllPermits(exts, RepliesHeard(endpoint, past, events)) + if StillOpen(endpoint, past, events) then 0 else 1
  }

  lemma NoPermits(exts: seq<Extension>)
    ensures AllPermits(exts, []) == 0
  {
  }

  lemma FirstIsControl(exts: seq<Extension>, endpoint: Endpoint, past: seq<Message>, events: seq<Event>)
    requires events != [] && events[0].Control?
    ensures var f := events[0].frame;
            if f.header.opcode == 8 then
              && RepliesHeard(endpoint, past, events) == [] && PostedFor(exts, endpoint, past, events) == 1
              && Answers(endpoint, past, events) == [ControlFrame(8, f.payload)]
            else
              && RepliesHeard(endpoint, past, events) == RepliesHeard(endpoint, past, events[1..])
              && PostedFor(exts, endpoint, past, events) == PostedFor(exts, endpoint, past, events[1..])
              && Answers(endpoint, past, events) == PongFor(f) + Answers(endpoint, past, events[1..])
  {
    hide ControlFrame, AllPermits;
    assert AllPermits(exts, []) == 0 by {
      NoPermits(exts);
    }
  }

  lemma {:induction false} AllPermitsConcat(exts: seq<Extension>, a: seq<Sent>, b: seq<Sent>)
    ensures AllPermits(exts, a + b) == AllPermits(exts, a) + AllPermits(exts, b)
    decreases |a|
  {
    hide Sent.Permits;
    if a == [] {
      assert a + b == b;
    } else {
      assert (a + b)[0] == a[0] && (a + b)[1..] == a[1..] + b;
      AllPermitsConcat(exts, a[1..], b);
    }
  }

  lemma FirstIsMessage(exts: seq<Extension>, endpoint: Endpoint, past: seq<Message>, events: seq<Event>)
    requires events != [] && events[0].Delivered?
    ensures var seen := past + [events[0].message];
            var rs := endpoint(seen);
            var rest := events[1..];
            if Closes(rs) then
              && RepliesHeard(endpoint, past, events) == RepliesOf(rs)
              && PostedFor(exts, endpoint, past, events) == Posted(exts, rs)
              && Answers(endpoint, past, events) == HangUpFrames(rs)
            else
              && RepliesHeard(endpoint, past, events) == RepliesOf(rs) + RepliesHeard(endpoint, seen, rest)
              && PostedFor(exts, endpoint, past, events) == Posted(exts, rs) + PostedFor(exts, endpoint, seen, rest)
              && Answers(endpoint, past, events) == HangUpFrames(rs) + Answers(endpoint, seen, rest)
  {
    hide Closes, AllPermits, RepliesOf, HangUpFrames;
    var m := events[0].message;
    var seen := past + [m];
    var rs := endpoint(seen);
    var heard := Heard(endpoint, past, events);
    if Closes(rs) {
      assert heard == [m] && [m][1..] == [];
      assert RepliesTo(endpoint, seen, []) == [];
      assert RepliesTo(endpoint, past, [m]) == RepliesOf(rs) + [] == RepliesOf(rs);
      assert HangUpFrames(rs) + [] == HangUpFrames(rs);
    } else {
      var more := Heard(endpoint, seen, events[1..]);
      assert heard == [m] + more && heard[0] == m && heard[1..] == more;
      AllPermitsConcat(exts, RepliesOf(rs), RepliesTo(endpoint, seen, more));
    }
  }

  lemma NothingSent(exts: seq<Extension>)
    ensures AllFrames(exts, []) == []
  {
  }

  /** What handling events adds to an open connection: the frames of the replies to exactly the messages heard, in
      order, and their permits; a Pong for each Ping up to the close; the close itself and the post it makes. */
  lemma {:induction false} EventsAdd(env: Env, endpoint: Endpoint, h: Handled, events: seq<Event>)
    requires h.status == Open
    ensures Added(h, HandleAll(env, endpoint, h, events),
                  AllFrames(env.exts, RepliesHeard(endpoint, h.messages, events)),
                  PostedFor(env.exts, endpoint, h.messages, events), Answers(endpoint, h.messages, events))
    decreases |events|
  {
    var f := HandleAll(env, endpoint, h, events);
    if events == [] {
      NoOpsAdded(h, h);
    } else {
      var g := HandleOne(env, endpoint, h, events[0]);
      assert f == HandleAll(env, endpoint, g, events[1..]);
      hide *;
      var none: seq<Frame> := [];
      var rest := events[1..];
      assert AllFrames(env.exts, []) == none by {
        NothingSent(env.exts);
      }
      match events[0] {
        case Control(c) =>
          FirstIsControl(env.exts, endpoint, h.messages, events);
          if c.header.opcode == 8 {
            PeerCloseAdds(env, endpoint, h, c);
            ClosedEventsAdd(env, endpoint, g, rest);
            var w := Answers(endpoint, h.messages, events);
            AddedTwice(h, g, f, none, none, 1, 0, w, none);
            assert none + none == none && w + none == w;
          } else {
            OtherControlAdds(env, endpoint, h, c);
            EventsAdd(env, endpoint, g, rest);
            var q := AllFrames(env.exts, RepliesHeard(endpoint, h.messages, rest));
            AddedTwice(h, g, f, none, q, 0, PostedFor(env.exts, endpoint, h.messages, rest),
                       PongFor(c), Answers(endpoint, h.messages, rest));
            assert none + q == q;
          }
        case Delivered(m) =>
          var seen := h.messages + [m];
          var rs := endpoint(seen);
          FirstIsMessage(env.exts, endpoint, h.messages, events);
          MessageAdds(env, endpoint, h, m);
          var q, p, w := AllFrames(env.exts, RepliesOf(rs)), Posted(env.exts, rs), HangUpFrames(rs);
          if Closes(rs) {
            ClosedEventsAdd(env, endpoint, g, rest);
            AddedTwice(h, g, f, q, none, p, 0, w, none);
            assert q + none == q && w + none == w;
          } else {
            EventsAdd(env, endpoint, g, rest);
            AllFramesConcat(env.exts, RepliesOf(rs), RepliesHeard(endpoint, seen, rest));
            AddedTwice(h, g, f, q, AllFrames(env.exts, RepliesHeard(endpoint, seen, rest)), p,
                       PostedFor(env.exts, endpoint, seen, rest), w, Answers(endpoint, seen, rest));
          }
      }
    }
  }

  // ---- What one read adds --------------------------------------------------------------------

  /** The Close frame written when a stream is bad: 1002 and "Protocol Error". */
  const PROTOCOL_CLOSE := ControlFrame(8, [3, 234, 80, 114, 111, 116, 111, 99, 111, 108, 32, 69, 114, 114, 111, 114])

  lemma OwnCloseIs()
    ensures CallOf(HangUp(PROTOCOL_ERROR, PROTOCOL_ERROR_TEXT)) == OWN_CLOSE
    ensures ControlFrame(8, [PROTOCOL_ERROR / 256 % 256, PROTOCOL_ERROR % 256] + PROTOCOL_ERROR_TEXT) == PROTOCOL_CLOSE
  {
    assert [PROTOCOL_ERROR / 256 % 256, PROTOCOL_ERROR % 256] == [3, 234];
  }

  lemma OwnCloseAdds(env: Env, h: Handled)
    ensures var g := HandleCall(env, h, OWN_CLOSE);
            && g.status != Open
            && if h.status == Open then Added(h, g, [], 1, [PROTOCOL_CLOSE]) else Added(h, g, [], 0, [])
  {
    assert HandleCall(env, h, OWN_CLOSE).status != Open;
    OwnCloseIs();
    hide *;
    if h.status == Open {
      CloseAdds(env, h, PROTOCOL_ERROR, PROTOCOL_ERROR_TEXT);
    } else {
      NotOpenAddsNothing(env, h, HangUp(PROTOCOL_ERROR, PROTOCOL_ERROR_TEXT));
    }
  }

  /** The protocol error is answered while the connection is open. */
  function ErrorClose(env: Env, endpoint: Endpoint, past: seq<Message>, st: Status, bytes: Bytes): seq<Frame> {
    if Reports(env, st, bytes) && StillOpen(endpoint, past, Resume(env, st, bytes).events) then [PROTOCOL_CLOSE] else []
  }

  /** What one read adds to an open connection: what its events add, and the Close frame of a reported error. */
  lemma ReadAdds(env: Env, endpoint: Endpoint, st: Status, h: Handled, bytes: Bytes)
    requires h.status == Open
    ensures var events := Resume(env, st, bytes).events;
            var last := ErrorClose(env, endpoint, h.messages, st, bytes);
            Added(h, AfterRead(env, endpoint, st, h, bytes),
                  AllFrames(env.exts, RepliesHeard(endpoint, h.messages, events)),
                  PostedFor(env.exts, endpoint, h.messages, events) + |last|,
                  Answers(endpoint, h.messages, events) + last)
  {
    var events := Resume(env, st, bytes).events;
    var g := HandleAll(env, endpoint, h, events);
    EventsAdd(env, endpoint, h, events);
    StatusAfterEvents(env, endpoint, h, events);
    OwnCloseAdds(env, g);
    hide HandleAll, HandleCall, Resume, Reports, StillOpen, Answers, PostedFor, RepliesHeard, AllFrames, Added;
    var q, p, w := AllFrames(env.exts, RepliesHeard(endpoint, h.messages, events)),
                   PostedFor(env.exts, endpoint, h.messages, events), Answers(endpoint, h.messages, events);
    var last, none: seq<Frame> := ErrorClose(env, endpoint, h.messages, st, bytes), [];
    if Reports(env, st, bytes) {
      AddedTwice(h, g, HandleCall(env, g, OWN_CLOSE), q, none, p, |last|, w, last);
    }
    assert q + none == q && w + none == w;
  }

  // ---- What all the reads add ----------------------------------------------------------------

  /** What two stretches of events add is what the first adds, and the second if the connection is still open. */
  predicate AddsInTwo(exts: seq<Extension>, endpoint: Endpoint, past: seq<Message>, a: seq<Event>, b: seq<Event>) {
    var seen := past + Heard(endpoint, past, a);
    if StillOpen(endpoint, past, a) then
      && (StillOpen(endpoint, past, a + b) <==> StillOpen(endpoint, seen, b))
      && AllFrames(exts, RepliesHeard(endpoint, past, a + b))
         == AllFrames(exts, RepliesHeard(endpoint, past, a)) + AllFrames(exts, RepliesHeard(endpoint, seen, b))
      && PostedFor(exts, endpoint, past, a + b)
         == PostedFor(exts, endpoint, past, a) + PostedFor(exts, endpoint, seen, b)
      && Answers(endpoint, past, a + b) == Answers(endpoint, past, a) + Answers(endpoint, seen, b)
    else
      && !StillOpen(endpoint, past, a + b)
      && AllFrames(exts, RepliesHeard(endpoint, past, a + b)) == AllFrames(exts, RepliesHeard(endpoint, past, a))
      && PostedFor(exts, endpoint, past, a + b) == PostedFor(exts, endpoint, past, a)
      && Answers(endpoint, past, a + b) == Answers(endpoint, past, a)
  }

  lemma NothingFirst(exts: seq<Extension>, endpoint: Endpoint, past: seq<Message>, b: seq<Event>)
    ensures AddsInTwo(exts, endpoint, past, [], b)
  {
    NothingSent(exts);
    assert [] + b == b && past + [] == past;
    assert StillOpen(endpoint, past, []) && Heard(endpoint, past, []) == [] && Answers(endpoint, past, []) == [];
    assert RepliesHeard(endpoint, past, []) == [] && PostedFor(exts, endpoint, past, []) == 0;
    hide AllFrames, PostedFor, RepliesHeard, StillOpen, Heard, Answers;
    assert [] + AllFrames(exts, RepliesHeard(endpoint, past, b)) == AllFrames(exts, RepliesHeard(endpoint, past, b));
    assert [] + Answers(endpoint, past, b) == Answers(endpoint, past, b);
  }

  lemma ControlFirst(
      exts: seq<Extension>, endpoint: Endpoint, past: seq<Message>, f: Frame, a: seq<Event>, b: seq<Event>)
    requires f.header.opcode == 8 || AddsInTwo(exts, endpoint, past, a, b)
    ensures AddsInTwo(exts, endpoint, past, [Control(f)] + a, b)
  {
    var c := [Control(f)] + a;
    assert c + b == [Control(f)] + (a + b) && c[1..] == a && (c + b)[1..] == a + b;
    FirstIsControl(exts, endpoint, past, c);
    FirstIsControl(exts, endpoint, past, c + b);
    hide AllFrames, PostedFor, RepliesHeard, Answers, PongFor, ControlFrame;
    if f.header.opcode != 8 {
      var seen := past + Heard(endpoint, past, a);
      ConcatAssoc(PongFor(f), Answers(endpoint, past, a), Answers(endpoint, seen, b));
    }
  }

  lemma MessageUnfolds(endpoint: Endpoint, past: seq<Message>, m: Message, a: seq<Event>)
    ensures var c, rs := [Delivered(m)] + a, endpoint(past + [m]);
            if Closes(rs) then !StillOpen(endpoint, past, c)
            else
              && Heard(endpoint, past, c) == [m] + Heard(endpoint, past + [m], a)
              && StillOpen(endpoint, past, c) == StillOpen(endpoint, past + [m], a)
  {
    hide Closes;
    var c := [Delivered(m)] + a;
    assert c[0] == Delivered(m) && c[1..] == a;
  }

  lemma MessageInFront(exts: seq<Extension>, endpoint: Endpoint, past: seq<Message>, m: Message, a: seq<Event>)
    ensures var c, mid := [Delivered(m)] + a, past + [m];
            var rs := endpoint(mid);
            if Closes(rs) then
              && RepliesHeard(endpoint, past, c) == RepliesOf(rs)
              && PostedFor(exts, endpoint, past, c) == Posted(exts, rs)
              && Answers(endpoint, past, c) == HangUpFrames(rs)
            else
              && AllFrames(exts, RepliesHeard(endpoint, past, c))
                 == AllFrames(exts, RepliesOf(rs)) + AllFrames(exts, RepliesHeard(endpoint, mid, a))
              && PostedFor(exts, endpoint, past, c) == Posted(exts, rs) + PostedFor(exts, endpoint, mid, a)
              && Answers(endpoint, past, c) == HangUpFrames(rs) + Answers(endpoint, mid, a)
  {
    hide *;
    var c := [Delivered(m)] + a;
    assert c[0] == Delivered(m) && c[1..] == a;
    FirstIsMessage(exts, endpoint, past, c);
    AllFramesConcat(exts, RepliesOf(endpoint(past + [m])), RepliesHeard(endpoint, past + [m], a));
  }

  lemma MessageFirst(
      exts: seq<Extension>, endpoint: Endpoint, past: seq<Message>, m: Message, a: seq<Event>, b: seq<Event>)
    requires Closes(endpoint(past + [m])) || AddsInTwo(exts, endpoint, past + [m], a, b)
    ensures AddsInTwo(exts, endpoint, past, [Delivered(m)] + a, b)
  {
    hide AllFrames, PostedFor, RepliesHeard, Answers, Closes, RepliesOf, HangUpFrames, Posted, Heard, StillOpen;
    var mid := past + [m];
    var rs := endpoint(mid);
    assert [Delivered(m)] + a + b == [Delivered(m)] + (a + b);
    MessageInFront(exts, endpoint, past, m, a);
    MessageInFront(exts, endpoint, past, m, a + b);
    MessageUnfolds(endpoint, past, m, a);
    MessageUnfolds(endpoint, past, m, a + b);
    if !Closes(rs) {
      var seen := mid + Heard(endpoint, mid, a);
      assert past + ([m] + Heard(endpoint, mid, a)) == seen;
      ConcatAssoc(AllFrames(exts, RepliesOf(rs)), AllFrames(exts, RepliesHeard(endpoint, mid, a)),
                  AllFrames(exts, RepliesHeard(endpoint, seen, b)));
      ConcatAssoc(HangUpFrames(rs), Answers(endpoint, mid, a), Answers(endpoint, seen, b));
    }
  }

  lemma {:induction false} EventsConcat(
      exts: seq<Extension>, endpoint: Endpoint, past: seq<Message>, a: seq<Event>, b: seq<Event>)
    ensures AddsInTwo(exts, endpoint, past, a, b)
    decreases |a|
  {
    hide *;
    if a == [] {
      NothingFirst(exts, endpoint, past, b);
    } else {
      var rest := a[1..];
      assert a == [a[0]] + rest;
      match a[0] {
        case Control(f) =>
          EventsConcat(exts, endpoint, past, rest, b);
          ControlFirst(exts, endpoint, past, f, rest, b);
        case Delivered(m) =>
          EventsConcat(exts, endpoint, past + [m], rest, b);
          MessageFirst(exts, endpoint, past, m, rest, b);
      }
    }
  }

  /** The shared state after a read on a connection that was open, or was not, before it: queued are the frames of the
      endpoint's replies to exactly the messages heard, with a permit posted for each (but for an empty fragmented
      message's) and one for a close; written are the answers to the events, with the Close frame of a reported
      error. */
  predicate ReadGrew(env: Env, endpoint: Endpoint, st: Status, status: ConnectionStatus, past: seq<Message>,
                     s: Shared, t: Shared, bytes: Bytes) {
    var events := Resume(env, st, bytes).events;
    var last := ErrorClose(env, endpoint, past, st, bytes);
    if status == Open then
      && t.queue == s.queue + AllFrames(env.exts, RepliesTo(endpoint, past, Heard(endpoint, past, events)))
      && t.permits == s.permits + PostedFor(env.exts, endpoint, past, events) + |last|
      && t.out == s.out + Answers(endpoint, past, events) + last
    else t.queue == s.queue && t.permits == s.permits && t.out == s.out
  }

  lemma ClosedReadAdds(env: Env, endpoint: Endpoint, st: Status, h: Handled, bytes: Bytes)
    requires h.status != Open
    ensures var g := AfterRead(env, endpoint, st, h, bytes);
            g.status != Open && Added(h, g, [], 0, [])
  {
    var events := Resume(env, st, bytes).events;
    var g := HandleAll(env, endpoint, h, events);
    ClosedEventsAdd(env, endpoint, h, events);
    StatusAfterEvents(env, endpoint, h, events);
    OwnCloseAdds(env, g);
    hide HandleAll, HandleCall, Resume, Reports, StillOpen, Added;
    if Reports(env, st, bytes) {
      var none: seq<Frame> := [];
      AddedTwice(h, g, HandleCall(env, g, OWN_CLOSE), none, none, 0, 0, none, none);
      assert none + none == none;
    }
  }

  lemma ReadGrows(env: Env, endpoint: Endpoint, st: Status, h: Handled, bytes: Bytes)
    ensures ReadGrew(env, endpoint, st, h.status, h.messages, Stored(h), Stored(AfterRead(env, endpoint, st, h, bytes)),
                     bytes)
  {
    hide Stored, AfterRead, AllFrames, PostedFor, Answers, Resume, Heard, RepliesTo, ErrorClose;
    var events := Resume(env, st, bytes).events;
    var last := ErrorClose(env, endpoint, h.messages, st, bytes);
    if h.status == Open {
      ReadAdds(env, endpoint, st, h, bytes);
      ConcatAssoc(Stored(h).out, Answers(endpoint, h.messages, events), last);
    } else {
      ClosedReadAdds(env, endpoint, st, h, bytes);
    }
  }

  lemma {:induction false} ClosedReadsAdd(env: Env, endpoint: Endpoint, st: Status, h: Handled, cuts: seq<Bytes>)
    requires h.status != Open
    ensures Added(h, ReadAll(env, endpoint, st, h, cuts), [], 0, [])
    decreases |cuts|
  {
    hide AfterRead, Added, Resume;
    if cuts == [] || h.hungUp {
      NoOpsAdded(h, h);
    } else {
      var g := AfterRead(env, endpoint, st, h, cuts[0]);
      ClosedReadAdds(env, endpoint, st, h, cuts[0]);
      ClosedReadsAdd(env, endpoint, Resume(env, st, cuts[0]).status, g, cuts[1..]);
      var none: seq<Frame> := [];
      AddedTwice(h, g, ReadAll(env, endpoint, st, h, cuts), none, none, 0, 0, none, none);
      assert none + none == none;
    }
  }

  /** What all the reads of a stream add, in terms of its events: as one read would, except that a bad stream may or
      may not have been answered yet. */
  ghost predicate StreamAdds(
    env: Env, endpoint: Endpoint, h: Handled, g: Handled, r: Scanned, last: seq<Frame>)
  {
    && (last == [] || last == [PROTOCOL_CLOSE])
    && (r.status.Alive? || !StillOpen(endpoint, h.messages, r.events) ==> last == [])
    && Added(h, g, AllFrames(env.exts, RepliesHeard(endpoint, h.messages, r.events)),
             PostedFor(env.exts, endpoint, h.messages, r.events) + |last|,
             Answers(endpoint, h.messages, r.events) + last)
  }

  lemma NoEventsAdd(env: Env, endpoint: Endpoint, h: Handled, st: Status)
    requires st.Alive? ==> Decode(env.max, st.rest).Need?
    ensures StreamAdds(env, endpoint, h, h, Resume(env, st, []), [])
  {
    ResumeNothing(env, st);
    NoOpsAdded(h, h);
    NothingSent(env.exts);
    assert RepliesHeard(endpoint, h.messages, []) == [] && PostedFor(env.exts, endpoint, h.messages, []) == 0;
    hide Resume, Added, AllFrames, RepliesHeard, PostedFor;
  }

  /** Once the endpoint hears no more or the stream is bad, further bytes change nothing. */
  lemma NothingMore(env: Env, endpoint: Endpoint, past: seq<Message>, st: Status, bytes: Bytes, more: Bytes)
    ensures var first, r := Resume(env, st, bytes), Resume(env, st, bytes + more);
            !first.status.Alive? || !StillOpen(endpoint, past, first.events) ==>
              && (StillOpen(endpoint, past, r.events) <==> StillOpen(endpoint, past, first.events))
              && (!first.status.Alive? ==> !r.status.Alive?)
              && AllFrames(env.exts, RepliesHeard(endpoint, past, r.events))
                 == AllFrames(env.exts, RepliesHeard(endpoint, past, first.events))
              && PostedFor(env.exts, endpoint, past, r.events) == PostedFor(env.exts, endpoint, past, first.events)
              && Answers(endpoint, past, r.events) == Answers(endpoint, past, first.events)
  {
    var first := Resume(env, st, bytes);
    var second := Resume(env, first.status, more);
    ResumeConcat(env, st, bytes, more);
    EventsConcat(env.exts, endpoint, past, first.events, second.events);
    assert !first.status.Alive? ==> second == Scanned([], first.status) && first.events + [] == first.events;
    hide Resume, AllFrames, RepliesHeard, PostedFor, Answers, StillOpen, Heard;
  }

  /** One read, after which the others add nothing. */
  lemma LastReadAdds(
      env: Env, endpoint: Endpoint, st: Status, h: Handled, bytes: Bytes, more: Bytes, f: Handled)
      returns (last: seq<Frame>)
    requires h.status == Open && !h.hungUp
    requires var g := AfterRead(env, endpoint, st, h, bytes);
             g.status != Open && Added(g, f, [], 0, [])
    ensures StreamAdds(env, endpoint, h, f, Resume(env, st, bytes + more), last)
  {
    var g := AfterRead(env, endpoint, st, h, bytes);
    var first := Resume(env, st, bytes);
    last := ErrorClose(env, endpoint, h.messages, st, bytes);
    AfterOneRead(env, endpoint, st, h, bytes);
    ReadAdds(env, endpoint, st, h, bytes);
    NothingMore(env, endpoint, h.messages, st, bytes, more);
    assert last == [] || (last == [PROTOCOL_CLOSE] && StillOpen(endpoint, h.messages, first.events));
    hide Resume, AfterRead, Added, AllFrames, RepliesHeard, PostedFor, Answers, StillOpen, Reports, Heard, ErrorClose;
    var q, w := AllFrames(env.exts, RepliesHeard(endpoint, h.messages, first.events)),
                Answers(endpoint, h.messages, first.events) + last;
    var p, none: seq<Frame> := PostedFor(env.exts, endpoint, h.messages, first.events) + |last|, [];
    AddedTwice(h, g, f, q, none, p, 0, w, none);
    assert q + none == q && w + none == w;
  }

  /** One read that leaves the connection open, then the others. */
  lemma FirstReadAdds(
      env: Env, endpoint: Endpoint, st: Status, h: Handled, bytes: Bytes, more: Bytes, f: Handled, last: seq<Frame>)
    requires h.status == Open && !h.hungUp
    requires var g := AfterRead(env, endpoint, st, h, bytes);
             && g.status == Open
             && StreamAdds(env, endpoint, g, f, Resume(env, Resume(env, st, bytes).status, more), last)
    ensures StreamAdds(env, endpoint, h, f, Resume(env, st, bytes + more), last)
  {
    var g := AfterRead(env, endpoint, st, h, bytes);
    var first := Resume(env, st, bytes);
    var second := Resume(env, first.status, more);
    AfterOneRead(env, endpoint, st, h, bytes);
    ReadAdds(env, endpoint, st, h, bytes);
    ResumeConcat(env, st, bytes, more);
    EventsConcat(env.exts, endpoint, h.messages, first.events, second.events);
    OwnCloseAdds(env, HandleAll(env, endpoint, h, first.events));
    assert ErrorClose(env, endpoint, h.messages, st, bytes) == [];
    hide Resume, AfterRead, Added, AllFrames, RepliesHeard, PostedFor, Answers, StillOpen, Reports, Heard, ErrorClose;
    var q, w := AllFrames(env.exts, RepliesHeard(endpoint, h.messages, first.events)),
                Answers(endpoint, h.messages, first.events);
    var q', w' := AllFrames(env.exts, RepliesHeard(endpoint, g.messages, second.events)),
                  Answers(endpoint, g.messages, second.events);
    assert w + [] == w;
    AddedTwice(h, g, f, q, q', PostedFor(env.exts, endpoint, h.messages, first.events),
               PostedFor(env.exts, endpoint, g.messages, second.events) + |last|, w, w' + last);
    ConcatAssoc(w, w', last);
  }

  lemma {:induction false} ReadsAdd(env: Env, endpoint: Endpoint, st: Status, h: Handled, cuts: seq<Bytes>)
      returns (last: seq<Frame>)
    requires h.status == Open && !h.hungUp
    requires st.Alive? ==> Decode(env.max, st.rest).Need?
    ensures StreamAdds(env, endpoint, h, ReadAll(env, endpoint, st, h, cuts), Resume(env, st, Flatten(cuts)), last)
    decreases |cuts|
  {
    hide StreamAdds, AfterRead, Resume, Decode;
    if cuts == [] {
      NoEventsAdd(env, endpoint, h, st);
      last := [];
    } else {
      var g := AfterRead(env, endpoint, st, h, cuts[0]);
      var more := Flatten(cuts[1..]);
      var f := ReadAll(env, endpoint, st, h, cuts);
      var next := Resume(env, st, cuts[0]).status;
      AfterOneRead(env, endpoint, st, h, cuts[0]);
      ResumeIsPartial(env, st, cuts[0]);
      if g.status == Open {
        last := ReadsAdd(env, endpoint, next, g, cuts[1..]);
        FirstReadAdds(env, endpoint, st, h, cuts[0], more, f, last);
      } else {
        ClosedReadsAdd(env, endpoint, next, g, cuts[1..]);
        last := LastReadAdds(env, endpoint, st, h, cuts[0], more, f);
      }
    }
  }

  /** However a stream is cut into reads: queued are exactly the frames of what the endpoint sent in reaction to the
      messages it was handed, in order; written are exactly the answers to the stream's control frames and the
      close, followed by the Close frame of a bad stream that is noticed while the connection is open. */
  lemma AnsweredWhateverTheCut(env: Env, endpoint: Endpoint, cuts: seq<Bytes>)
    ensures var r := Scan(env, FRESH, Flatten(cuts));
            var s := Stored(ReadAll(env, endpoint, START, UPGRADED, cuts));
            var answers := Answers(endpoint, [], r.events);
            && s.queue == AllFrames(env.exts, RepliesTo(endpoint, [], Heard(endpoint, [], r.events)))
            && (s.out == answers
                || (s.out == answers + [PROTOCOL_CLOSE] && !r.status.Alive? && StillOpen(endpoint, [], r.events)))
            && s.permits == AllPermits(env.exts, RepliesTo(endpoint, [], Heard(endpoint, [], r.events)))
                            + (if StillOpen(endpoint, [], r.events) then 0 else 1) + |s.out| - |answers|
  {
    hide Heard, Scan, ReadAll, StillOpen, Answers, RepliesTo, AllPermits, AllFrames;
    var last := ReadsAdd(env, endpoint, START, UPGRADED, cuts);
    assert [] + Flatten(cuts) == Flatten(cuts);
    assert Stored(UPGRADED) == SHARED_OPENED;
    var answers := Answers(endpoint, [], Scan(env, FRESH, Flatten(cuts)).events);
    assert [] + (answers + last) == answers + last && answers + [] == answers;
  }
}

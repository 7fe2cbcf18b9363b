/** What the callbacks of a connection amount to: the operations they make on shared state, the status they leave and
    the messages the endpoint hears (ws/websocket.h). */
module Handling {
  import opened ByteArrays
  import opened Frames
  import opened Messages
  import opened Extensions
  import opened FrameBuilding
  import opened MessageParsing
  import opened Protocol

  // ---- Operations on shared state -----------------------------------------------

  datatype Op =
    | SetStatus(status: ConnectionStatus)
    | SemPost
    | LockQueue
    | UnlockQueue
    | PushFrames(frames: seq<Frame>)
    | WriteBytes(frame: Frame)

  datatype Shared = Shared(
    status: ConnectionStatus, queue: seq<Frame>, permits: nat, locked: bool, out: seq<Frame>)

  const SHARED_OPENED := Shared(Open, [], 0, false, [])

  function Exec(s: Shared, op: Op): Shared {
    match op
    case SetStatus(status) => s.(status := status)
    case SemPost => s.(permits := s.permits + 1)
    case LockQueue => s.(locked := true)
    case UnlockQueue => s.(locked := false)
    case PushFrames(fs) => s.(queue := s.queue + fs)
    case WriteBytes(f) => s.(out := s.out + [f])
  }

  function ExecAll(s: Shared, ops: seq<Op>): Shared {
    if ops == [] then s else Exec(ExecAll(s, ops[..|ops| - 1]), ops[|ops| - 1])
  }

  lemma ExecAllSnoc(s: Shared, ops: seq<Op>, op: Op)
    ensures ExecAll(s, ops + [op]) == Exec(ExecAll(s, ops), op)
  {
    assert (ops + [op])[..|ops|] == ops;
  }

  function Posts(n: nat): seq<Op> {
    seq(n, i => SemPost)
  }

  /** The operations a call has still to make from the position given. */
  function Remaining(pc: LoopPc): seq<Op> {
    match pc
    case Idle => []
    case SendLock(fs, n) => [LockQueue, PushFrames(fs)] + Posts(n) + [UnlockQueue]
    case SendPush(fs, n) => [PushFrames(fs)] + Posts(n) + [UnlockQueue]
    case SendPost(n) => Posts(n) + [UnlockQueue]
    case CloseWrite(f) => [WriteBytes(f), SetStatus(Closing), SemPost]
    case CloseSet => [SetStatus(Closing), SemPost]
    case ClosePost => [SemPost]
    case PeerSet(f) => [SetStatus(Closing), SemPost, WriteBytes(f)]
    case PeerPost(f) => [SemPost, WriteBytes(f)]
    case PeerWrite(f) => [WriteBytes(f)]
    case TcpSet => [SetStatus(Closed), SemPost, SetStatus(Closed)]
    case TcpPost => [SemPost, SetStatus(Closed)]
    case FinalSet => [SetStatus(Closed)]
    case WriteFrame(f) => [WriteBytes(f)]
  }

  lemma PostsSnoc(before: seq<Op>, n: nat)
    ensures before + Posts(n + 1) == before + Posts(n) + [SemPost]
  {
  }

  lemma SendOperations(before: seq<Op>, fs: seq<Frame>, n: nat)
    ensures before + [LockQueue] + [PushFrames(fs)] + Posts(n) + [UnlockQueue]
         == before + ([LockQueue, PushFrames(fs)] + Posts(n) + [UnlockQueue])
  {
  }

  function SharedOf(c: Conn): Shared {
    Shared(c.status, c.queue, c.permits, c.locked, c.out)
  }

  lemma FirstOp(op: Op, ops: seq<Op>)
    ensures ([op] + ops)[0] == op && ([op] + ops)[1..] == ops
  {
  }

  /** What a step does to the operations still to make and to the shared state. */
  ghost predicate MakesNextOp(c: Conn, c': Conn) {
    var ops := Remaining(c.loop);
    ops != [] && Remaining(c'.loop) == ops[1..] && SharedOf(c') == Exec(SharedOf(c), ops[0])
  }

  lemma SendStepMakesNextOp(c: Conn)
    requires c.loop.SendLock? || c.loop.SendPush? || c.loop.SendPost?
    ensures MakesNextOp(c, AfterLoop(c))
  {
    match c.loop {
      case SendLock(fs, n) =>
        FirstOp(LockQueue, [PushFrames(fs)] + Posts(n) + [UnlockQueue]);
        assert Remaining(c.loop) == [LockQueue] + ([PushFrames(fs)] + Posts(n) + [UnlockQueue]);
      case SendPush(fs, n) =>
        FirstOp(PushFrames(fs), Posts(n) + [UnlockQueue]);
        assert Remaining(c.loop) == [PushFrames(fs)] + (Posts(n) + [UnlockQueue]);
      case SendPost(n) =>
        if n > 0 {
          FirstOp(SemPost, Posts(n - 1) + [UnlockQueue]);
          assert Posts(n) == [SemPost] + Posts(n - 1);
          assert Remaining(c.loop) == [SemPost] + (Posts(n - 1) + [UnlockQueue]);
        }
    }
  }

  /** A step of the loop thread in the interleaved model makes exactly the next operation of its call. */
  lemma LoopStepMakesNextOp(c: Conn)
    requires c.loop != Idle
    ensures MakesNextOp(c, AfterLoop(c))
  {
    if c.loop.SendLock? || c.loop.SendPush? || c.loop.SendPost? {
      hide *;
      SendStepMakesNextOp(c);
    }
  }

  // ---- The endpoint ---------------------------------------------------------------

  type ValidSent = s: Sent | s.Valid() witness Sent([], BINARY, false, 0)

  /** What an endpoint may do with its session while it is handed a message. */
  datatype Reaction = Reply(sent: ValidSent) | HangUp(code: nat, reason: Bytes)

  /** An endpoint's reactions to the last of the messages it has been handed. */
  type Endpoint = seq<Message> -> seq<Reaction>

  function CallOf(r: Reaction): Call {
    match r
    case Reply(sent) => SendMessage(sent)
    case HangUp(code, reason) => CloseConnection(code, reason)
  }

  predicate Closes(rs: seq<Reaction>) {
    exists r | r in rs :: r.HangUp?
  }

  // ---- Events of one read ---------------------------------------------------------

  /** What callbacks amount to: operations made, status left, messages handed on, and whether the TCP
      connection has been closed. */
  datatype Handled = Handled(ops: seq<Op>, status: ConnectionStatus, messages: seq<Message>, hungUp: bool)

  const UPGRADED := Handled([], Open, [], false)

  /** A call of the application: only closing an open connection changes the status. */
  function HandleCall(env: Env, h: Handled, call: Call): Handled {
    h.(ops := h.ops + Remaining(Enter(env.exts, h.status, call, None)),
       status := if call.CloseConnection? && h.status == Open then Closing else h.status)
  }

  function HandleReactions(env: Env, h: Handled, rs: seq<Reaction>): Handled
    decreases |rs|
  {
    if rs == [] then h else HandleReactions(env, HandleCall(env, h, CallOf(rs[0])), rs[1..])
  }

  /** A Close frame moves an open connection to CLOSING and a closing one to CLOSED, and either time the TCP
      connection is closed; a message is handed to the endpoint of an open connection, which may react. */
  function HandleOne(env: Env, endpoint: Endpoint, h: Handled, e: Event): Handled {
    match e
    case Control(f) =>
      h.(ops := h.ops + Remaining(Enter(env.exts, h.status, OnControlFrame(f), None)),
         status := if !f.IsClose() then h.status else if h.status == Open then Closing else Closed,
         hungUp := h.hungUp || (f.IsClose() && h.status != Closed))
    case Delivered(m) =>
      if h.status != Open then h
      else
        var messages := h.messages + [m];
        HandleReactions(env, h.(messages := messages), endpoint(messages))
  }

  function HandleAll(env: Env, endpoint: Endpoint, h: Handled, events: seq<Event>): Handled
    decreases |events|
  {
    if events == [] then h else HandleAll(env, endpoint, HandleOne(env, endpoint, h, events[0]), events[1..])
  }

  predicate IsCloseEvent(e: Event) {
    e.Control? && e.frame.IsClose()
  }

  predicate CloseSeen(events: seq<Event>) {
    events != [] && (IsCloseEvent(events[0]) || CloseSeen(events[1..]))
  }

  /** The messages before the first Close frame, up to and including the first to which the endpoint reacts by
      closing the connection. */
  function Heard(endpoint: Endpoint, past: seq<Message>, events: seq<Event>): seq<Message>
    decreases |events|
  {
    if events == [] || IsCloseEvent(events[0]) then []
    else if events[0].Control? then Heard(endpoint, past, events[1..])
    else
      var m := events[0].message;
      if Closes(endpoint(past + [m])) then [m] else [m] + Heard(endpoint, past + [m], events[1..])
  }

  lemma FirstCloses(rs: seq<Reaction>)
    requires rs != []
    ensures Closes(rs) <==> rs[0].HangUp? || Closes(rs[1..])
  {
    assert rs == [rs[0]] + rs[1..];
  }

  lemma {:induction false} ReactionsStatus(env: Env, h: Handled, rs: seq<Reaction>)
    ensures var g := HandleReactions(env, h, rs);
            && g.messages == h.messages && g.hungUp == h.hungUp
            && g.status == if h.status == Open && Closes(rs) then Closing else h.status
    decreases |rs|
  {
    if rs == [] {
    } else {
      var g := HandleCall(env, h, CallOf(rs[0]));
      assert g.messages == h.messages && g.hungUp == h.hungUp;
      assert g.status == if h.status == Open && rs[0].HangUp? then Closing else h.status;
      FirstCloses(rs);
      hide HandleCall, Remaining, Enter, Closes;
      ReactionsStatus(env, g, rs[1..]);
    }
  }

  /** The endpoint of an open connection sees exactly the messages before the first Close frame or its own
      close, whichever comes first; on a connection that is not open it sees none. */
  lemma {:induction false} MessagesUntilClose(env: Env, endpoint: Endpoint, h: Handled, events: seq<Event>)
    ensures HandleAll(env, endpoint, h, events).messages
         == h.messages + if h.status == Open then Heard(endpoint, h.messages, events) else []
    decreases |events|
  {
    hide Remaining, Enter, HandleReactions;
    assert h.messages + [] == h.messages;
    if events == [] {
    } else {
      var h' := HandleOne(env, endpoint, h, events[0]);
      MessagesUntilClose(env, endpoint, h', events[1..]);
      assert h'.messages + [] == h'.messages;
      if events[0].Delivered? && h.status == Open {
        var messages := h.messages + [events[0].message];
        ReactionsStatus(env, h.(messages := messages), endpoint(messages));
        var rest := Heard(endpoint, messages, events[1..]);
        assert h.messages + [events[0].message] + rest == h.messages + ([events[0].message] + rest);
      }
    }
  }

  const PROTOCOL_ERROR: nat := 1002

  /** "Protocol Error" in ASCII. */
  const PROTOCOL_ERROR_TEXT: Bytes := [80, 114, 111, 116, 111, 99, 111, 108, 32, 69, 114, 114, 111, 114]

  /** What this side does about a bad stream. */
  const OWN_CLOSE := Protocol.CloseConnection(PROTOCOL_ERROR, PROTOCOL_ERROR_TEXT)

  // ---- Read after read ------------------------------------------------------------

  /** What one read amounts to. */
  function AfterRead(env: Env, endpoint: Endpoint, st: Status, h: Handled, bytes: Bytes): Handled {
    var g := HandleAll(env, endpoint, h, Resume(env, st, bytes).events);
    if Reports(env, st, bytes) then HandleCall(env, g, OWN_CLOSE) else g
  }

  /** What a sequence of reads amounts to. Once the TCP connection is closed no read arrives. */
  function ReadAll(env: Env, endpoint: Endpoint, st: Status, h: Handled, cuts: seq<Bytes>): Handled
    decreases |cuts|
  {
    if cuts == [] || h.hungUp then h
    else
      ReadAll(env, endpoint, Resume(env, st, cuts[0]).status, AfterRead(env, endpoint, st, h, cuts[0]), cuts[1..])
  }

  /** The endpoint goes on hearing after these events. */
  predicate StillOpen(endpoint: Endpoint, past: seq<Message>, events: seq<Event>)
    decreases |events|
  {
    if events == [] then true
    else if events[0].Control? then !IsCloseEvent(events[0]) && StillOpen(endpoint, past, events[1..])
    else
      var m := events[0].message;
      !Closes(endpoint(past + [m])) && StillOpen(endpoint, past + [m], events[1..])
  }

  lemma {:induction false} HeardConcat(endpoint: Endpoint, past: seq<Message>, a: seq<Event>, b: seq<Event>)
    ensures Heard(endpoint, past, a + b)
         == Heard(endpoint, past, a)
            + if StillOpen(endpoint, past, a) then Heard(endpoint, past + Heard(endpoint, past, a), b) else []
    decreases |a|
  {
    hide Closes;
    if a == [] {
      assert a + b == b && past + [] == past;
    } else {
      assert (a + b)[0] == a[0] && (a + b)[1..] == a[1..] + b;
      if a[0].Control? {
        HeardConcat(endpoint, past, a[1..], b);
      } else {
        var m := a[0].message;
        HeardConcat(endpoint, past + [m], a[1..], b);
        var rest := Heard(endpoint, past + [m], a[1..]);
        assert past + ([m] + rest) == past + [m] + rest;
      }
    }
  }

  /** An open connection is still open after the events exactly if the endpoint goes on hearing, and the TCP
      connection is closed exactly if there was a Close frame. */
  lemma {:induction false} StatusAfterEvents(env: Env, endpoint: Endpoint, h: Handled, events: seq<Event>)
    ensures var g := HandleAll(env, endpoint, h, events);
            && (g.status == Open <==> h.status == Open && StillOpen(endpoint, h.messages, events))
            && ((h.hungUp ==> h.status != Open) ==> (g.hungUp ==> g.status != Open))
            && (h.hungUp ==> g.hungUp)
            && (h.status != Closed && !h.hungUp ==> (g.hungUp <==> CloseSeen(events)))
    decreases |events|
  {
    hide Remaining, Enter, HandleReactions, Closes;
    if events == [] {
    } else {
      var g := HandleOne(env, endpoint, h, events[0]);
      if events[0].Delivered? && h.status == Open {
        var messages := h.messages + [events[0].message];
        ReactionsStatus(env, h.(messages := messages), endpoint(messages));
      }
      StatusAfterEvents(env, endpoint, g, events[1..]);
    }
  }

  /** A call reports an error only when the stream has stopped. */
  lemma ReportsMeansStopped(env: Env, st: Status, bytes: Bytes)
    requires Reports(env, st, bytes)
    ensures !Resume(env, st, bytes).status.Alive?
  {
    hide Decode, Take;
    if st.Alive? {
      ResumeStep(env, st, bytes);
    }
  }

  lemma ReadHears(env: Env, endpoint: Endpoint, st: Status, h: Handled, bytes: Bytes)
    ensures AfterRead(env, endpoint, st, h, bytes).messages
         == h.messages + if h.status == Open then Heard(endpoint, h.messages, Resume(env, st, bytes).events) else []
  {
    hide Remaining, Enter, HandleAll, Heard, Resume;
    MessagesUntilClose(env, endpoint, h, Resume(env, st, bytes).events);
  }

  /** What a read leaves of the connection, as far as hearing goes. */
  lemma AfterOneRead(env: Env, endpoint: Endpoint, st: Status, h: Handled, bytes: Bytes)
    requires h.hungUp ==> h.status != Open
    ensures var r := Resume(env, st, bytes);
            var g := AfterRead(env, endpoint, st, h, bytes);
            && (g.hungUp ==> g.status != Open)
            && g.messages == h.messages + (if h.status == Open then Heard(endpoint, h.messages, r.events) else [])
            && (g.status == Open ==> h.status == Open && StillOpen(endpoint, h.messages, r.events))
            && (h.status == Open && StillOpen(endpoint, h.messages, r.events) && g.status != Open ==> !r.status.Alive?)
  {
    var r := Resume(env, st, bytes);
    MessagesUntilClose(env, endpoint, h, r.events);
    StatusAfterEvents(env, endpoint, h, r.events);
    hide Remaining, Enter, HandleAll, StillOpen, Heard, Resume;
    if Reports(env, st, bytes) {
      ReportsMeansStopped(env, st, bytes);
    }
  }

  /** A stream read on in two parts. */
  lemma ResumeConcat(env: Env, st: Status, a: Bytes, b: Bytes)
    ensures var first := Resume(env, st, a);
            var second := Resume(env, first.status, b);
            Resume(env, st, a + b) == Scanned(first.events + second.events, second.status)
  {
    if st.Alive? {
      hide Scan;
      ScanResumes(env, st.message, st.rest + a, b);
      assert st.rest + (a + b) == st.rest + a + b;
    }
  }

  lemma ResumeNothing(env: Env, st: Status)
    requires st.Alive? ==> Decode(env.max, st.rest).Need?
    ensures Resume(env, st, []).events == []
  {
    hide Decode;
    if st.Alive? {
      assert st.rest + [] == st.rest;
    }
  }

  lemma ResumeIsPartial(env: Env, st: Status, bytes: Bytes)
    ensures var next := Resume(env, st, bytes).status;
            st.Alive? && next.Alive? ==> Decode(env.max, next.rest).Need?
    ensures !st.Alive? ==> Resume(env, st, bytes).status == st
  {
    if st.Alive? {
      RestIsPartial(env, st.message, st.rest + bytes);
    }
  }

  lemma StoppedIsSilent(env: Env, endpoint: Endpoint, past: seq<Message>, st: Status, bytes: Bytes)
    requires !st.Alive?
    ensures Heard(endpoint, past, Resume(env, st, bytes).events) == []
  {
  }

  lemma NothingHeard(env: Env, endpoint: Endpoint, past: seq<Message>, st: Status)
    requires st.Alive? ==> Decode(env.max, st.rest).Need?
    ensures Heard(endpoint, past, Resume(env, st, []).events) == []
  {
    ResumeNothing(env, st);
  }

  /** What is heard of a stream read on in two parts. */
  lemma HeardInTwo(env: Env, endpoint: Endpoint, past: seq<Message>, st: Status, a: Bytes, b: Bytes)
    ensures var first := Resume(env, st, a);
            var heard := Heard(endpoint, past, first.events);
            Heard(endpoint, past, Resume(env, st, a + b).events)
            == heard + if StillOpen(endpoint, past, first.events)
                       then Heard(endpoint, past + heard, Resume(env, first.status, b).events)
                       else []
  {
    hide *;
    var first := Resume(env, st, a);
    ResumeConcat(env, st, a, b);
    HeardConcat(endpoint, past, first.events, Resume(env, first.status, b).events);
  }

  lemma {:induction false} HeardOverReads(env: Env, endpoint: Endpoint, st: Status, h: Handled, cuts: seq<Bytes>)
    requires h.hungUp ==> h.status != Open
    requires st.Alive? ==> Decode(env.max, st.rest).Need?
    ensures ReadAll(env, endpoint, st, h, cuts).messages
         == h.messages
            + if h.status == Open then Heard(endpoint, h.messages, Resume(env, st, Flatten(cuts)).events) else []
    decreases |cuts|
  {
    hide StillOpen, HandleAll, Resume, AfterRead, Decode, Heard;
    assert h.messages + [] == h.messages;
    if cuts == [] {
      NothingHeard(env, endpoint, h.messages, st);
    } else if h.hungUp {
    } else {
      var r := Resume(env, st, cuts[0]);
      var g := AfterRead(env, endpoint, st, h, cuts[0]);
      var heard := Heard(endpoint, h.messages, r.events);
      AfterOneRead(env, endpoint, st, h, cuts[0]);
      ResumeIsPartial(env, st, cuts[0]);
      HeardOverReads(env, endpoint, r.status, g, cuts[1..]);
      HeardInTwo(env, endpoint, h.messages, st, cuts[0], Flatten(cuts[1..]));
      if !r.status.Alive? {
        StoppedIsSilent(env, endpoint, h.messages + heard, r.status, Flatten(cuts[1..]));
      }
      assert g.messages + [] == g.messages && heard + [] == heard;
      var more := Resume(env, r.status, Flatten(cuts[1..])).events;
      ConcatAssoc(h.messages, heard, Heard(endpoint, h.messages + heard, more));
    }
  }

  /** The messages handed to the endpoint of an upgraded connection do not depend on how the network cuts the
      stream: they are those of the whole stream that come before the first close from either side. */
  lemma HeardWhateverTheCut(env: Env, endpoint: Endpoint, cuts: seq<Bytes>)
    ensures ReadAll(env, endpoint, START, UPGRADED, cuts).messages
         == Heard(endpoint, [], Scan(env, FRESH, Flatten(cuts)).events)
  {
    hide Heard, Scan, ReadAll;
    HeardOverReads(env, endpoint, START, UPGRADED, cuts);
    assert [] + Flatten(cuts) == Flatten(cuts);
  }
}

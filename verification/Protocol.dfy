/** The connection as two threads see it: the loop thread's calls, one shared-state operation at a time,
    interleaved with the sender thread (ws/websocket.h). */
module Protocol {
  import opened ByteArrays
  import opened Frames
  import opened Messages
  import opened Extensions
  import opened FrameBuilding

  datatype ConnectionStatus = Open | Closing | Closed

  /** Arguments of `sendMessage`. */
  datatype Sent = Sent(bytes: Bytes, kind: Opcode, fragmentation: bool, mtu: nat) {
    predicate Valid() { kind <= BINARY && (fragmentation ==> mtu > 0) }

    function Message(exts: seq<Extension>): Message { Built(exts, bytes, kind) }

    function Frames(exts: seq<Extension>): seq<Frame> {
      if Valid() then BuildFrames(Message(exts), fragmentation, mtu) else []
    }

    function Permits(exts: seq<Extension>): nat {
      if Valid() then BuildCount(|Message(exts).payload|, fragmentation, mtu) else 0
    }

    /** A frame queued without a permit. */
    function Lag(exts: seq<Extension>): nat {
      if fragmentation && Message(exts).payload == [] then 1 else 0
    }
  }

  // ---- Control frames ---------------------------------------------------------

  /** A Close frame with a status code and its text. */
  function CloseFrame(code: nat, reason: Bytes): Frame {
    InitFrame(CONNECTION_CLOSE, true).(payload := BigEndian(code, 2) + reason)
  }

  /** A Close frame that repeats the one received. */
  function CloseReply(f: Frame): Frame {
    InitFrame(CONNECTION_CLOSE, true).(payload := f.payload)
  }

  function PongFrame(ping: Frame): Frame {
    InitFrame(PONG, true).(payload := ping.payload)
  }

  // ---- The loop thread ----------------------------------------------------------

  /** What can start on the loop thread: calls of the application, callbacks of the parser,
      the end of the TCP connection, and tasks handed over by the sender. */
  datatype Call =
    | SendMessage(sent: Sent)
    | CloseConnection(code: nat, reason: Bytes)
    | OnControlFrame(frame: Frame)
    | OnMessage(message: Message)
    | OnTCPClose
    | RunTask

  /** Where the loop thread is inside a call: the next operation on shared state and what it needs. */
  datatype LoopPc =
    | Idle
    | SendLock(frames: seq<Frame>, permits: nat)
    | SendPush(frames: seq<Frame>, permits: nat)
    | SendPost(permits: nat)
    | CloseWrite(frame: Frame)
    | CloseSet
    | ClosePost
    | PeerSet(frame: Frame)
    | PeerPost(frame: Frame)
    | PeerWrite(frame: Frame)
    | TcpSet
    | TcpPost
    | FinalSet
    | WriteFrame(frame: Frame)

  /** The call's first operation, given the status it finds. */
  function Enter(exts: seq<Extension>, status: ConnectionStatus, call: Call, task: Option<Frame>): LoopPc
  {
    match call
    case SendMessage(sent) => if status == Open then SendLock(sent.Frames(exts), sent.Permits(exts)) else Idle
    case CloseConnection(code, reason) => if status == Open then CloseWrite(CloseFrame(code, reason)) else Idle
    case OnControlFrame(f) =>
      if f.header.opcode == CONNECTION_CLOSE then
        match status {
          case Open => PeerSet(CloseReply(f))
          case Closing => FinalSet
          case Closed => Idle
        }
      else if f.header.opcode == PING && status == Open then WriteFrame(PongFrame(f))
      else Idle
    case OnMessage(_) => Idle
    case OnTCPClose => if status == Open then TcpSet else FinalSet
    case RunTask => if status == Open && task.Some? then WriteFrame(task.value) else Idle
  }

  // ---- The sender thread ----------------------------------------------------------

  /** Where the sender is in its loop. `Crashed` is a pop from an empty queue. */
  datatype SenderPc = Check | Wait | Recheck | Pop | Dispatch(frame: Frame) | Done | Crashed

  // ---- Both together --------------------------------------------------------------

  /** Shared state, both positions, and what has happened so far. */
  datatype Conn = Conn(
    status: ConnectionStatus,
    queue: seq<Frame>,
    permits: nat,
    locked: bool,
    tasks: seq<Frame>,
    out: seq<Frame>,
    loop: LoopPc,
    sender: SenderPc,
    accepted: seq<Sent>,
    pushed: seq<Frame>,
    dispatched: seq<Frame>,
    ran: seq<Frame>,
    received: seq<Message>)

  /** After an accepted upgrade. */
  const OPENED := Conn(Open, [], 0, false, [], [], Idle, Check, [], [], [], [], [])

  datatype Action = Begin(call: Call) | LoopStep | SenderStep

  predicate Enabled(c: Conn, a: Action) {
    match a
    case Begin(call) =>
      && c.loop == Idle
      && (call.SendMessage? ==> call.sent.Valid())
      && (call.RunTask? ==> c.tasks != [])
    case LoopStep => c.loop != Idle
    case SenderStep =>
      match c.sender
      case Wait => c.permits > 0
      case Pop => !c.locked
      case Done => false
      case Crashed => false
      case _ => true
  }

  function AfterBegin(exts: seq<Extension>, c: Conn, call: Call): Conn
    requires Enabled(c, Begin(call))
  {
    var task := if call.RunTask? then Some(c.tasks[0]) else None;
    var entered := c.(loop := Enter(exts, c.status, call, task));
    match call
    case SendMessage(sent) => if c.status == Open then entered.(accepted := c.accepted + [sent]) else entered
    case OnMessage(m) => if c.status == Open then entered.(received := c.received + [m]) else entered
    case RunTask => entered.(tasks := c.tasks[1..], ran := c.ran + [c.tasks[0]])
    case _ => entered
  }

  function AfterLoop(c: Conn): Conn
    requires c.loop != Idle
  {
    match c.loop
    case SendLock(fs, n) => c.(locked := true, loop := SendPush(fs, n))
    case SendPush(fs, n) => c.(queue := c.queue + fs, pushed := c.pushed + fs, loop := SendPost(n))
    case SendPost(n) =>
      if n > 0 then c.(permits := c.permits + 1, loop := SendPost(n - 1)) else c.(locked := false, loop := Idle)
    case CloseWrite(f) => c.(out := c.out + [f], loop := CloseSet)
    case CloseSet => c.(status := Closing, loop := ClosePost)
    case ClosePost => c.(permits := c.permits + 1, loop := Idle)
    case PeerSet(f) => c.(status := Closing, loop := PeerPost(f))
    case PeerPost(f) => c.(permits := c.permits + 1, loop := PeerWrite(f))
    case PeerWrite(f) => c.(out := c.out + [f], loop := Idle)
    case TcpSet => c.(status := Closed, loop := TcpPost)
    case TcpPost => c.(permits := c.permits + 1, loop := FinalSet)
    case FinalSet => c.(status := Closed, loop := Idle)
    case WriteFrame(f) => c.(out := c.out + [f], loop := Idle)
  }

  function AfterSender(c: Conn): Conn
    requires Enabled(c, SenderStep)
  {
    match c.sender
    case Check => c.(sender := if c.status == Open then Wait else Done)
    case Wait => c.(permits := c.permits - 1, sender := Recheck)
    case Recheck => c.(sender := if c.status == Open then Pop else Done)
    case Pop =>
      if c.queue == [] then c.(sender := Crashed) else c.(queue := c.queue[1..], sender := Dispatch(c.queue[0]))
    case Dispatch(f) => c.(tasks := c.tasks + [f], dispatched := c.dispatched + [f], sender := Check)
  }

  function Next(exts: seq<Extension>, c: Conn, a: Action): Conn
    requires Enabled(c, a)
  {
    match a
    case Begin(call) => AfterBegin(exts, c, call)
    case LoopStep => AfterLoop(c)
    case SenderStep => AfterSender(c)
  }

  // ---- Runs -----------------------------------------------------------------------

  ghost predicate IsRun(exts: seq<Extension>, c: Conn, actions: seq<Action>)
    decreases |actions|
  {
    actions != [] ==> Enabled(c, actions[0]) && IsRun(exts, Next(exts, c, actions[0]), actions[1..])
  }

  function After(exts: seq<Extension>, c: Conn, actions: seq<Action>): Conn
    requires IsRun(exts, c, actions)
    decreases |actions|
  {
    if actions == [] then c else After(exts, Next(exts, c, actions[0]), actions[1..])
  }

  // ---- The invariant --------------------------------------------------------------

  function AllFrames(exts: seq<Extension>, sents: seq<Sent>): seq<Frame> {
    if sents == [] then []
    else AllFrames(exts, sents[..|sents| - 1]) + sents[|sents| - 1].Frames(exts)
  }

  /** Frames queued without a permit, over all messages accepted. */
  function AllLag(exts: seq<Extension>, sents: seq<Sent>): nat {
    if sents == [] then 0 else AllLag(exts, sents[..|sents| - 1]) + sents[|sents| - 1].Lag(exts)
  }

  /** The frames written that carry data, in order. */
  function DataOf(fs: seq<Frame>): seq<Frame> {
    if fs == [] then []
    else DataOf(fs[..|fs| - 1]) + if fs[|fs| - 1].IsControl() then [] else [fs[|fs| - 1]]
  }

  function BeingPushed(pc: LoopPc): seq<Frame> {
    if pc.SendLock? || pc.SendPush? then pc.frames else []
  }

  function PostsAhead(pc: LoopPc): nat {
    if pc.SendLock? || pc.SendPush? || pc.SendPost? then pc.permits else 0
  }

  function InHand(pc: SenderPc): seq<Frame> {
    if pc.Dispatch? then [pc.frame] else []
  }

  /** A permit taken for a frame not yet popped. */
  function Held(pc: SenderPc): nat {
    if pc == Recheck || pc == Pop then 1 else 0
  }

  /** The post that wakes the sender for good has been made: it comes after the status leaves OPEN. */
  predicate WokenUp(c: Conn) {
    c.status != Open && !(c.loop == ClosePost || c.loop.PeerPost? || c.loop == TcpPost)
  }

  /** The loop thread is inside `sendMessage`, or at an operation that only an open connection gets to. */
  predicate OpenOnly(pc: LoopPc) {
    || pc.SendLock? || pc.SendPush? || pc.SendPost?
    || pc.CloseWrite? || pc == CloseSet || pc.PeerSet? || pc == TcpSet || pc.WriteFrame?
  }

  predicate WritesClose(pc: LoopPc) {
    pc.CloseWrite? || pc.PeerSet? || pc.PeerPost? || pc.PeerWrite?
  }

  /** The message being queued is the last one accepted. */
  ghost predicate SendsLast(exts: seq<Extension>, c: Conn)
    requires c.loop.SendLock? || c.loop.SendPush?
  {
    && c.accepted != []
    && |c.loop.frames| == c.loop.permits + c.accepted[|c.accepted| - 1].Lag(exts)
  }

  /** What each position of the loop thread implies about the status, the lock and its arguments. */
  ghost predicate PositionOk(exts: seq<Extension>, c: Conn) {
    && (c.locked <==> c.loop.SendPush? || c.loop.SendPost?)
    && (OpenOnly(c.loop) ==> c.status == Open)
    && (c.loop == ClosePost || c.loop.PeerPost? || c.loop.PeerWrite? ==> c.status == Closing)
    && (c.loop == TcpPost ==> c.status == Closed)
    && (c.loop == FinalSet ==> c.status != Open)
    && (WritesClose(c.loop) ==> c.loop.frame.IsClose() && c.loop.frame.Plain())
    && (c.loop.WriteFrame? ==> !c.loop.frame.IsClose() && c.loop.frame.Plain())
    && (c.loop.SendLock? || c.loop.SendPush? ==> SendsLast(exts, c))
  }

  /** Permits, the one in the sender's hand and the posts ahead, with the lag of empty fragmented messages,
      account for every frame queued or about to be, plus the waking post. */
  ghost predicate Accounted(exts: seq<Extension>, c: Conn) {
    c.sender != Done ==>
      c.permits + Held(c.sender) + PostsAhead(c.loop) + AllLag(exts, c.accepted)
      == |c.queue| + |BeingPushed(c.loop)| + if WokenUp(c) then 1 else 0
  }

  /** Once the waking post is made, a sender that has yet to wait will find a permit. */
  ghost predicate NoLostWakeUp(c: Conn) {
    WokenUp(c) && c.sender != Recheck && c.sender != Done ==> c.permits > 0
  }

  ghost predicate Conserved(exts: seq<Extension>, c: Conn) {
    && (forall s | s in c.accepted :: s.Valid())
    && AllFrames(exts, c.accepted) == c.pushed + BeingPushed(c.loop)
    && c.pushed == c.dispatched + InHand(c.sender) + c.queue
    && c.dispatched == c.ran + c.tasks
  }

  /** The data frame the loop thread is about to write. */
  function BeingWritten(pc: LoopPc): seq<Frame> {
    if pc.WriteFrame? then DataOf([pc.frame]) else []
  }

  /** While the connection is open every task's frame is written; afterwards none is. */
  ghost predicate WritesTasks(c: Conn) {
    var written := DataOf(c.out) + BeingWritten(c.loop);
    && written <= c.ran
    && (c.status == Open ==> written == c.ran)
  }

  predicate IsData(f: Frame) {
    f.header.opcode <= BINARY && f.Plain()
  }

  ghost predicate DataFrames(fs: seq<Frame>) {
    forall f | f in fs :: IsData(f)
  }

  ghost predicate OutPlain(c: Conn) {
    forall f | f in c.out :: f.Plain()
  }

  /** A Close frame is the last one written, and nothing that could write follows it. */
  ghost predicate CloseIsLast(c: Conn) {
    forall i :: 0 <= i < |c.out| && c.out[i].IsClose() ==>
                  && i == |c.out| - 1
                  && (c.status != Open || c.loop == CloseSet)
                  && !WritesClose(c.loop) && !c.loop.WriteFrame?
  }

  ghost predicate Counted(exts: seq<Extension>, c: Conn) {
    PositionOk(exts, c) && Accounted(exts, c) && NoLostWakeUp(c) && c.sender != Crashed
  }

  ghost predicate FramesOk(exts: seq<Extension>, c: Conn) {
    Conserved(exts, c) && DataFrames(c.pushed) && DataFrames(BeingPushed(c.loop))
  }

  ghost predicate Inv(exts: seq<Extension>, c: Conn) {
    && Counted(exts, c)
    && FramesOk(exts, c)
    && WritesTasks(c)
    && CloseIsLast(c)
    && OutPlain(c)
  }

  // ---- The invariant holds in every run -----------------------------------------------

  lemma SentFramesAreData(exts: seq<Extension>, s: Sent)
    requires s.Valid()
    ensures DataFrames(s.Frames(exts))
    ensures |s.Frames(exts)| == s.Permits(exts) + s.Lag(exts)
  {
    CountLags(s.Message(exts), s.fragmentation, s.mtu);
  }

  lemma DataOfSnoc(fs: seq<Frame>, f: Frame)
    ensures DataOf(fs + [f]) == DataOf(fs) + if f.IsControl() then [] else [f]
  {
    assert (fs + [f])[..|fs|] == fs;
  }

  lemma BeingWrittenIs(pc: LoopPc)
    ensures BeingWritten(pc) == if pc.WriteFrame? && !pc.frame.IsControl() then [pc.frame] else []
  {
    if pc.WriteFrame? {
      DataOfSnoc([], pc.frame);
      assert [] + [pc.frame] == [pc.frame];
    }
  }

  /** A lock-free moment at the pop finds a frame in the queue. */
  lemma PopFindsAFrame(exts: seq<Extension>, c: Conn)
    requires Counted(exts, c) && c.sender == Pop && !c.locked
    ensures c.queue != []
  {
  }

  lemma AcceptedSnoc(exts: seq<Extension>, sents: seq<Sent>, s: Sent)
    ensures AllLag(exts, sents + [s]) == AllLag(exts, sents) + s.Lag(exts)
    ensures AllFrames(exts, sents + [s]) == AllFrames(exts, sents) + s.Frames(exts)
  {
    assert (sents + [s])[..|sents|] == sents;
  }

  lemma {:induction false} AllFramesConcat(exts: seq<Extension>, a: seq<Sent>, b: seq<Sent>)
    ensures AllFrames(exts, a + b) == AllFrames(exts, a) + AllFrames(exts, b)
    decreases |b|
  {
    hide Sent.Frames;
    if b == [] {
      assert a + b == a;
    } else {
      var front, s := b[..|b| - 1], b[|b| - 1];
      AllFramesConcat(exts, a, front);
      assert a + b == (a + front) + [s] && b == front + [s];
      AcceptedSnoc(exts, a + front, s);
      AcceptedSnoc(exts, front, s);
      hide AllFrames;
      ConcatAssoc(AllFrames(exts, a), AllFrames(exts, front), s.Frames(exts));
    }
  }

  lemma OneMessagesFrames(exts: seq<Extension>, s: Sent)
    ensures AllFrames(exts, [s]) == s.Frames(exts)
  {
    hide Sent.Frames;
    assert [s][..0] == [];
    assert AllFrames(exts, [s]) == AllFrames(exts, []) + s.Frames(exts);
  }

  lemma SendKeepsCounts(exts: seq<Extension>, c: Conn, s: Sent)
    requires Counted(exts, c) && Enabled(c, Begin(SendMessage(s))) && c.status == Open
    ensures Counted(exts, AfterBegin(exts, c, SendMessage(s)))
  {
    hide Sent.Frames, Sent.Permits, Sent.Lag, Sent.Message, AllLag, AllFrames, DataFrames;
    SentFramesAreData(exts, s);
    AcceptedSnoc(exts, c.accepted, s);
    var c' := AfterBegin(exts, c, SendMessage(s));
    assert c' == c.(loop := SendLock(s.Frames(exts), s.Permits(exts)), accepted := c.accepted + [s]);
    hide AfterBegin, Enter;
    assert c'.accepted[|c'.accepted| - 1] == s;
    assert SendsLast(exts, c') && PositionOk(exts, c');
    hide SendsLast, PositionOk;
    assert Accounted(exts, c') && NoLostWakeUp(c');
  }

  lemma BeginKeepsCounts(exts: seq<Extension>, c: Conn, call: Call)
    requires Counted(exts, c) && Enabled(c, Begin(call))
    requires c.tasks != [] ==> IsData(c.tasks[0])
    ensures Counted(exts, AfterBegin(exts, c, call))
  {
    hide AllLag;
    if call.SendMessage? && c.status == Open {
      SendKeepsCounts(exts, c, call.sent);
    }
  }

  lemma LoopKeepsCounts(exts: seq<Extension>, c: Conn)
    requires Counted(exts, c) && c.loop != Idle
    ensures Counted(exts, AfterLoop(c))
  {
    hide AllLag;
  }

  lemma SenderKeepsCounts(exts: seq<Extension>, c: Conn)
    requires Counted(exts, c) && Enabled(c, SenderStep)
    ensures Counted(exts, AfterSender(c))
  {
    if c.sender == Pop {
      PopFindsAFrame(exts, c);
    }
    hide AllLag;
  }

  lemma BeginKeepsFrames(exts: seq<Extension>, c: Conn, call: Call)
    requires FramesOk(exts, c) && Enabled(c, Begin(call))
    ensures FramesOk(exts, AfterBegin(exts, c, call))
  {
    hide BuildFrames, BuildCount, AllFrames;
    var c' := AfterBegin(exts, c, call);
    assert c.pushed + [] == c.pushed;
    if call.SendMessage? && c.status == Open {
      SentFramesAreData(exts, call.sent);
      AcceptedSnoc(exts, c.accepted, call.sent);
    } else if call.RunTask? {
      assert c'.ran + c'.tasks == c.ran + c.tasks;
    }
  }

  lemma LoopKeepsFrames(exts: seq<Extension>, c: Conn)
    requires FramesOk(exts, c) && c.loop != Idle
    ensures FramesOk(exts, AfterLoop(c))
  {
    hide AllFrames;
    var c' := AfterLoop(c);
    if c.loop.SendPush? {
      var fs := c.loop.frames;
      assert c'.pushed + [] == c.pushed + fs;
      ConcatAssoc(c.dispatched + InHand(c.sender), c.queue, fs);
    }
  }

  lemma SenderKeepsFrames(exts: seq<Extension>, c: Conn)
    requires FramesOk(exts, c) && Enabled(c, SenderStep)
    requires c.sender == Pop ==> c.queue != []
    ensures FramesOk(exts, AfterSender(c))
  {
    hide AllFrames;
    var c' := AfterSender(c);
    if c.sender == Pop {
      assert c.dispatched + [] + c.queue == c.dispatched + [c.queue[0]] + c.queue[1..];
    } else if c.sender.Dispatch? {
      assert c.dispatched + [c.sender.frame] + c.queue == c'.dispatched + [] + c'.queue;
      assert c'.dispatched == c.ran + (c.tasks + [c.sender.frame]);
    }
  }

  /** The next task's frame is a data frame. */
  lemma TaskIsData(exts: seq<Extension>, c: Conn)
    requires Conserved(exts, c) && DataFrames(c.pushed) && c.tasks != []
    ensures IsData(c.tasks[0])
  {
    assert c.dispatched[|c.ran|] == c.tasks[0] && c.pushed[|c.ran|] == c.tasks[0];
  }

  lemma BeginKeepsWrites(exts: seq<Extension>, c: Conn, call: Call)
    requires WritesTasks(c) && Enabled(c, Begin(call))
    requires c.tasks != [] ==> IsData(c.tasks[0])
    ensures WritesTasks(AfterBegin(exts, c, call))
  {
    hide BuildFrames, BuildCount, DataOf;
    var c' := AfterBegin(exts, c, call);
    BeingWrittenIs(c'.loop);
    assert DataOf(c.out) + [] == DataOf(c.out);
  }

  lemma LoopKeepsWrites(exts: seq<Extension>, c: Conn)
    requires PositionOk(exts, c) && WritesTasks(c) && c.loop != Idle
    ensures WritesTasks(AfterLoop(c))
  {
    hide DataOf, SendsLast;
    BeingWrittenIs(c.loop);
    assert DataOf(c.out) + [] == DataOf(c.out);
    if c.loop.CloseWrite? || c.loop.PeerWrite? || c.loop.WriteFrame? {
      DataOfSnoc(c.out, c.loop.frame);
      assert DataOf(c.out + [c.loop.frame]) + [] == DataOf(c.out + [c.loop.frame]);
    }
  }

  lemma CloseKept(exts: seq<Extension>, c: Conn, a: Action)
    requires PositionOk(exts, c) && CloseIsLast(c) && OutPlain(c) && Enabled(c, a)
    ensures CloseIsLast(Next(exts, c, a)) && OutPlain(Next(exts, c, a))
  {
    hide BuildFrames, SendsLast;
  }

  lemma SenderKeepsWrites(c: Conn)
    requires WritesTasks(c) && Enabled(c, SenderStep)
    ensures WritesTasks(AfterSender(c))
  {
  }

  lemma InvKept(exts: seq<Extension>, c: Conn, a: Action)
    requires Inv(exts, c) && Enabled(c, a)
    ensures Inv(exts, Next(exts, c, a))
  {
    hide Accounted, NoLostWakeUp, Conserved, WritesTasks, CloseIsLast, OutPlain;
    hide AfterBegin, AfterLoop, AfterSender, DataFrames;
    if c.tasks != [] {
      TaskIsData(exts, c);
    }
    CloseKept(exts, c, a);
    match a
    case Begin(call) =>
      BeginKeepsCounts(exts, c, call);
      BeginKeepsFrames(exts, c, call);
      BeginKeepsWrites(exts, c, call);
    case LoopStep =>
      LoopKeepsCounts(exts, c);
      LoopKeepsFrames(exts, c);
      LoopKeepsWrites(exts, c);
    case SenderStep =>
      if c.sender == Pop {
        PopFindsAFrame(exts, c);
      }
      SenderKeepsCounts(exts, c);
      SenderKeepsFrames(exts, c);
      SenderKeepsWrites(c);
  }

  /** The invariant holds after every run. */
  lemma {:induction false} InvHolds(exts: seq<Extension>, c: Conn, actions: seq<Action>)
    requires Inv(exts, c) && IsRun(exts, c, actions)
    ensures Inv(exts, After(exts, c, actions))
    decreases |actions|
  {
    if actions == [] {
    } else {
      InvKept(exts, c, actions[0]);
      InvHolds(exts, Next(exts, c, actions[0]), actions[1..]);
    }
  }
}

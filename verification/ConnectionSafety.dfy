/** What holds in every run of the connection (ws/websocket.h). */
module ConnectionSafety {
  import opened ByteArrays
  import opened Frames
  import opened Messages
  import opened Extensions
  import opened FrameBuilding
  import opened Protocol

  lemma Started(exts: seq<Extension>)
    ensures Inv(exts, OPENED)
  {
  }

  lemma RunInv(exts: seq<Extension>, actions: seq<Action>)
    requires IsRun(exts, OPENED, actions)
    ensures Inv(exts, After(exts, OPENED, actions))
  {
    Started(exts);
    InvHolds(exts, OPENED, actions);
  }

  // ---- The queue ------------------------------------------------------------------

  /** The sender never pops from an empty queue: when it can take the lock there is a frame. */
  lemma NoPopOnEmpty(exts: seq<Extension>, actions: seq<Action>)
    requires IsRun(exts, OPENED, actions)
    ensures var c := After(exts, OPENED, actions);
            && c.sender != Crashed
            && (c.sender == Pop && Enabled(c, SenderStep) ==> c.queue != [])
  {
    RunInv(exts, actions);
    var c := After(exts, OPENED, actions);
    if c.sender == Pop && !c.locked {
      PopFindsAFrame(exts, c);
    }
  }

  lemma PrefixOfConcat<T>(a: seq<T>, b: seq<T>, whole: seq<T>)
    requires a <= whole
    ensures a <= whole + b
  {
  }

  lemma FlowInOrder(exts: seq<Extension>, c: Conn)
    requires FramesOk(exts, c)
    ensures AllFrames(exts, c.accepted)
         == c.ran + (c.tasks + InHand(c.sender) + c.queue + BeingPushed(c.loop))
  {
    hide AllFrames, DataFrames;
    ConcatAssoc5(c.ran, c.tasks, InHand(c.sender), c.queue, BeingPushed(c.loop));
  }

  /** No frame is lost, duplicated or reordered on its way through the queue and the tasks, the frames of a
      message stay together, and the data frames written are a prefix of the frames of the messages accepted. */
  lemma FramesConserved(exts: seq<Extension>, actions: seq<Action>)
    requires IsRun(exts, OPENED, actions)
    ensures var c := After(exts, OPENED, actions);
            && (forall s | s in c.accepted :: s.Valid())
            && AllFrames(exts, c.accepted)
               == c.ran + (c.tasks + InHand(c.sender) + c.queue + BeingPushed(c.loop))
            && DataOf(c.out) <= c.ran
            && DataOf(c.out) <= AllFrames(exts, c.accepted)
            && (c.status == Open && c.loop == Idle ==> DataOf(c.out) == c.ran)
  {
    RunInv(exts, actions);
    var c := After(exts, OPENED, actions);
    hide IsRun, After, AllFrames, DataOf, Counted, CloseIsLast, DataFrames;
    FlowInOrder(exts, c);
    assert DataOf(c.out) + [] == DataOf(c.out);
    PrefixOfConcat(DataOf(c.out), c.tasks + InHand(c.sender) + c.queue + BeingPushed(c.loop), c.ran);
  }

  // ---- Close ------------------------------------------------------------------------

  function Rank(status: ConnectionStatus): nat {
    match status
    case Open => 0
    case Closing => 1
    case Closed => 2
  }

  lemma {:induction false} RunSplit(exts: seq<Extension>, c: Conn, a: seq<Action>, b: seq<Action>)
    requires IsRun(exts, c, a + b)
    ensures IsRun(exts, c, a) && IsRun(exts, After(exts, c, a), b)
    ensures After(exts, c, a + b) == After(exts, After(exts, c, a), b)
    decreases |a|
  {
    hide Next, Enabled;
    if a == [] {
      assert a + b == b;
    } else {
      assert (a + b)[0] == a[0] && (a + b)[1..] == a[1..] + b;
      RunSplit(exts, Next(exts, c, a[0]), a[1..], b);
    }
  }

  /** What may be written once the connection is no longer open: the reply to the peer's Close if the loop
      thread is on its way to it, and nothing else. */
  function LastWrite(pc: LoopPc): seq<Frame> {
    if pc.PeerPost? || pc.PeerWrite? then [pc.frame] else []
  }

  lemma ClosingStep(exts: seq<Extension>, c: Conn, a: Action)
    requires Inv(exts, c) && Enabled(c, a)
    ensures var c' := Next(exts, c, a);
            && Rank(c'.status) >= Rank(c.status) && c.out <= c'.out
            && (c.status != Open ==>
                  && c'.out + LastWrite(c'.loop) == c.out + LastWrite(c.loop)
                  && c'.received == c.received && c'.accepted == c.accepted)
  {
    hide BuildFrames, BuildCount, Accounted, NoLostWakeUp, FramesOk, WritesTasks, CloseIsLast;
  }

  lemma {:induction false} ClosingRun(exts: seq<Extension>, c: Conn, actions: seq<Action>)
    requires Inv(exts, c) && IsRun(exts, c, actions)
    ensures var c' := After(exts, c, actions);
            && Rank(c'.status) >= Rank(c.status) && c.out <= c'.out
            && (c.status != Open ==>
                  && c'.out + LastWrite(c'.loop) == c.out + LastWrite(c.loop)
                  && c'.received == c.received && c'.accepted == c.accepted)
    decreases |actions|
  {
    hide Inv, Next, Enabled, LastWrite;
    if actions == [] {
    } else {
      ClosingStep(exts, c, actions[0]);
      InvKept(exts, c, actions[0]);
      ClosingRun(exts, Next(exts, c, actions[0]), actions[1..]);
    }
  }

  lemma {:induction false} AfterCloseRun(exts: seq<Extension>, c: Conn, actions: seq<Action>)
    requires Inv(exts, c) && IsRun(exts, c, actions)
    requires c.out != [] && c.out[|c.out| - 1].IsClose()
    ensures var c' := After(exts, c, actions);
            c'.out == c.out && c'.received == c.received && c'.accepted == c.accepted
    decreases |actions|
  {
    hide BuildFrames, BuildCount, Accounted, NoLostWakeUp, FramesOk, WritesTasks;
    if actions == [] {
    } else {
      assert c.out[|c.out| - 1].IsClose();
      InvKept(exts, c, actions[0]);
      AfterCloseRun(exts, Next(exts, c, actions[0]), actions[1..]);
    }
  }

  lemma ReplyIsClose(exts: seq<Extension>, c: Conn)
    requires Inv(exts, c)
    ensures forall f | f in LastWrite(c.loop) :: f.IsClose()
  {
  }

  lemma FinalState(exts: seq<Extension>, c: Conn, c': Conn)
    requires CloseIsLast(c) && CloseIsLast(c')
    requires c.out <= c'.out
    ensures forall i :: 0 <= i < |c'.out| && c'.out[i].IsClose() ==> i == |c'.out| - 1
    ensures c'.out + LastWrite(c'.loop) == c.out + LastWrite(c.loop) ==>
              c'.out == c.out || c'.out == c.out + LastWrite(c.loop)
    ensures (exists i :: 0 <= i < |c.out| && c.out[i].IsClose()) ==> c.out[|c.out| - 1].IsClose()
  {
  }

  /** Close is final. However a run goes on after the moment `now`: the status only moves forward; once it
      is not OPEN the endpoint gets no further message, none is accepted, and at most the one Close reply
      is still written; at most one Close frame is ever written, and once it is, nothing at all is written and no
      message is handed over or accepted. */
  lemma CloseIsFinal(exts: seq<Extension>, now: seq<Action>, later: seq<Action>)
    requires IsRun(exts, OPENED, now + later)
    ensures IsRun(exts, OPENED, now)
    ensures var c := After(exts, OPENED, now);
            var c' := After(exts, OPENED, now + later);
            && Rank(c.status) <= Rank(c'.status) && c.out <= c'.out
            && (c.status != Open ==>
                  && c'.received == c.received && c'.accepted == c.accepted
                  && (c'.out == c.out || c'.out == c.out + LastWrite(c.loop))
                  && (forall f | f in LastWrite(c.loop) :: f.IsClose()))
            && (forall i :: 0 <= i < |c'.out| && c'.out[i].IsClose() ==> i == |c'.out| - 1)
            && ((exists i :: 0 <= i < |c.out| && c.out[i].IsClose()) ==>
                  c'.out == c.out && c'.received == c.received && c'.accepted == c.accepted)
  {
    RunSplit(exts, OPENED, now, later);
    RunInv(exts, now);
    RunInv(exts, now + later);
    var c := After(exts, OPENED, now);
    ClosingRun(exts, c, later);
    ReplyIsClose(exts, c);
    if c.out != [] && c.out[|c.out| - 1].IsClose() {
      AfterCloseRun(exts, c, later);
    }
    FinalState(exts, c, After(exts, OPENED, now + later));
  }

  // ---- Answers --------------------------------------------------------------------------

  /** The loop thread is on its way to write the frame, with nothing written since, or has written it. */
  predicate Owes(base: seq<Frame>, f: Frame, c: Conn) {
    || (c.out == base && (c.loop in {CloseWrite(f), PeerSet(f), PeerPost(f), PeerWrite(f), WriteFrame(f)}))
    || base + [f] <= c.out
  }

  lemma OwesStep(exts: seq<Extension>, base: seq<Frame>, f: Frame, c: Conn, a: Action)
    requires Owes(base, f, c) && Enabled(c, a)
    ensures Owes(base, f, Next(exts, c, a)) && (a.Begin? ==> base + [f] <= c.out)
  {
    hide Enter, Sent.Frames, Sent.Permits;
  }

  lemma {:induction false} OwesRun(exts: seq<Extension>, base: seq<Frame>, f: Frame, c: Conn, actions: seq<Action>)
    requires Inv(exts, c) && IsRun(exts, c, actions) && Owes(base, f, c)
    ensures var c' := After(exts, c, actions);
            && Owes(base, f, c')
            && (c'.loop == Idle || (exists a | a in actions :: a.Begin?) ==> base + [f] <= c'.out)
    decreases |actions|
  {
    hide Inv, Next, Enabled;
    if actions == [] {
    } else {
      var next := Next(exts, c, actions[0]);
      OwesStep(exts, base, f, c, actions[0]);
      InvKept(exts, c, actions[0]);
      OwesRun(exts, base, f, next, actions[1..]);
      if actions[0].Begin? {
        ClosingRun(exts, c, actions);
      }
      assert actions == [actions[0]] + actions[1..];
    }
  }

  /** The control frame a call must write if it finds the connection open: the peer's Close repeated, a Pong with
      the payload of the Ping, or a Close of its own. */
  function Due(call: Call): Option<Frame> {
    match call
    case OnControlFrame(f) =>
      if f.header.opcode == 8 then Some(ControlFrame(8, f.payload))
      else if f.header.opcode == 9 then Some(ControlFrame(10, f.payload))
      else None
    case CloseConnection(code, reason) => Some(ControlFrame(8, [code / 256 % 256, code % 256] + reason))
    case _ => None
  }

  lemma DueIsOwed(exts: seq<Extension>, c: Conn, call: Call)
    requires Enabled(c, Begin(call)) && c.status == Open && Due(call).Some?
    ensures Owes(c.out, Due(call).value, AfterBegin(exts, c, call))
  {
    if call.CloseConnection? {
      TwoByteForm(call.code);
    }
    hide BigEndian;
  }

  lemma CloseEndsOut(exts: seq<Extension>, c: Conn, base: seq<Frame>, f: Frame)
    requires Inv(exts, c) && f.IsClose() && base + [f] <= c.out
    ensures c.out == base + [f]
  {
    assert c.out[|base|] == f;
  }

  /** Whatever the two threads do meanwhile: once a call that found the connection open has ended, the frame due for it
      stands right behind all that was written before the call, and if it is a Close frame it stays the last one. */
  lemma DueIsWritten(exts: seq<Extension>, now: seq<Action>, call: Call, later: seq<Action>)
    requires IsRun(exts, OPENED, now + ([Begin(call)] + later)) && IsRun(exts, OPENED, now)
    requires After(exts, OPENED, now).status == Open && Due(call).Some?
    ensures var c, c' := After(exts, OPENED, now), After(exts, OPENED, now + ([Begin(call)] + later));
            c'.loop == Idle || (exists a | a in later :: a.Begin?) ==>
              && c.out + [Due(call).value] <= c'.out
              && (Due(call).value.header.opcode == 8 ==> c'.out == c.out + [Due(call).value])
  {
    var c := After(exts, OPENED, now);
    RunSplit(exts, OPENED, now, [Begin(call)] + later);
    RunInv(exts, now);
    RunInv(exts, now + ([Begin(call)] + later));
    assert ([Begin(call)] + later)[0] == Begin(call) && ([Begin(call)] + later)[1..] == later;
    var c1 := AfterBegin(exts, c, call);
    assert Enabled(c, Begin(call)) && c1 == Next(exts, c, Begin(call));
    DueIsOwed(exts, c, call);
    InvKept(exts, c, Begin(call));
    assert IsRun(exts, c1, later);
    var c' := After(exts, c1, later);
    assert c' == After(exts, OPENED, now + ([Begin(call)] + later));
    var f := Due(call).value;
    hide Inv, Enabled, Next, AfterBegin, Due, IsRun, After, Owes;
    OwesRun(exts, c.out, f, c1, later);
    if f.header.opcode == 8 && c.out + [f] <= c'.out {
      CloseEndsOut(exts, c', c.out, f);
    }
  }

  // ---- The sender ---------------------------------------------------------------------

  /** Steps the sender still takes once woken for good. */
  function StepsLeft(pc: SenderPc): nat {
    match pc
    case Check => 1
    case Wait => 2
    case Recheck => 1
    case Pop => 3
    case Dispatch(_) => 2
    case Done => 0
    case Crashed => 0
  }

  function SenderSteps(actions: seq<Action>): nat {
    if actions == [] then 0 else (if actions[0].SenderStep? then 1 else 0) + SenderSteps(actions[1..])
  }

  /** Once the status has left OPEN and the post for it is made, the sender is never stuck: it is done or it
      can step, each step brings it closer to the end, and nothing else moves it or undoes the waking. */
  lemma WokenSenderMoves(exts: seq<Extension>, c: Conn, a: Action)
    requires Inv(exts, c) && WokenUp(c)
    ensures c.sender == Done || Enabled(c, SenderStep)
    ensures c.sender == Wait ==> c.permits > 0
    ensures Enabled(c, a) ==>
              var c' := Next(exts, c, a);
              && WokenUp(c')
              && (if a.SenderStep? then StepsLeft(c'.sender) < StepsLeft(c.sender) else c'.sender == c.sender)
  {
    hide BuildFrames, BuildCount, FramesOk, WritesTasks, CloseIsLast;
    if c.sender == Pop && !c.locked {
      PopFindsAFrame(exts, c);
    }
  }

  lemma NotCrashed(exts: seq<Extension>, c: Conn)
    requires Inv(exts, c)
    ensures c.sender != Crashed
  {
  }

  /** So it finishes within three of its own steps, whatever the loop thread does meanwhile. */
  lemma {:induction false} SenderTerminates(exts: seq<Extension>, c: Conn, actions: seq<Action>)
    requires Inv(exts, c) && WokenUp(c) && IsRun(exts, c, actions)
    ensures var c' := After(exts, c, actions);
            && StepsLeft(c'.sender) + SenderSteps(actions) <= StepsLeft(c.sender)
            && (c'.sender == Done || Enabled(c', SenderStep))
            && (SenderSteps(actions) == 3 ==> c'.sender == Done)
            && SenderSteps(actions) <= 3
    decreases |actions|
  {
    hide Inv, Next, Enabled, WokenUp;
    if actions == [] {
      WokenSenderMoves(exts, c, SenderStep);
    } else {
      WokenSenderMoves(exts, c, actions[0]);
      InvKept(exts, c, actions[0]);
      SenderTerminates(exts, Next(exts, c, actions[0]), actions[1..]);
    }
    InvHolds(exts, c, actions);
    NotCrashed(exts, After(exts, c, actions));
  }

  /** In every run: from the moment the waking post is made the sender takes at most three more steps,
      is never blocked before it is done, and is done after the third. */
  lemma WokenSenderFinishes(exts: seq<Extension>, now: seq<Action>, later: seq<Action>)
    requires IsRun(exts, OPENED, now + later) && IsRun(exts, OPENED, now)
    requires WokenUp(After(exts, OPENED, now))
    ensures var c := After(exts, OPENED, now + later);
            && SenderSteps(later) <= 3
            && (c.sender == Done || Enabled(c, SenderStep))
            && (SenderSteps(later) == 3 ==> c.sender == Done)
  {
    RunSplit(exts, OPENED, now, later);
    RunInv(exts, now);
    SenderTerminates(exts, After(exts, OPENED, now), later);
  }

  // ---- Quiet connections ----------------------------------------------------------------

  /** Nothing is going on: no call, no task, and the sender waits without a permit. */
  predicate Quiet(c: Conn) {
    c.status == Open && c.loop == Idle && c.tasks == [] && c.sender == Wait && c.permits == 0
  }

  /** While the connection is open the sender has not left its loop. */
  lemma {:induction false} OpenSenderLives(exts: seq<Extension>, c: Conn, actions: seq<Action>)
    requires Inv(exts, c) && IsRun(exts, c, actions) && (c.sender == Done ==> c.status != Open)
    ensures var c' := After(exts, c, actions); c'.sender == Done ==> c'.status != Open
    decreases |actions|
  {
    hide BuildFrames, BuildCount, Accounted, FramesOk, WritesTasks, CloseIsLast;
    if actions == [] {
    } else {
      ClosingStep(exts, c, actions[0]);
      InvKept(exts, c, actions[0]);
      OpenSenderLives(exts, Next(exts, c, actions[0]), actions[1..]);
    }
  }

  /** Nothing can move without a new call. */
  predicate AtRest(c: Conn) {
    !Enabled(c, LoopStep) && !Enabled(c, Begin(RunTask)) && !Enabled(c, SenderStep)
  }

  /** An open connection on which neither the sender nor a task can make progress is quiet. */
  lemma StuckMeansQuiet(exts: seq<Extension>, actions: seq<Action>)
    requires IsRun(exts, OPENED, actions)
    ensures var c := After(exts, OPENED, actions);
            c.status == Open && AtRest(c) ==> Quiet(c)
  {
    RunInv(exts, actions);
    Started(exts);
    OpenSenderLives(exts, OPENED, actions);
  }

  // ---- Coming to rest -------------------------------------------------------------------

  /** Steps of the two threads and tasks already handed over, without new calls. */
  predicate IsInner(a: Action) {
    !a.Begin? || a.call.RunTask?
  }

  function LoopWork(pc: LoopPc): nat {
    match pc
    case Idle => 0
    case SendLock(_, n) => 9 * n + 3
    case SendPush(_, n) => 9 * n + 2
    case SendPost(n) => 9 * n + 1
    case CloseWrite(_) => 12
    case CloseSet => 11
    case ClosePost => 10
    case PeerSet(_) => 12
    case PeerPost(_) => 11
    case PeerWrite(_) => 1
    case TcpSet => 12
    case TcpPost => 11
    case FinalSet => 1
    case WriteFrame(_) => 1
  }

  function SenderWork(pc: SenderPc): nat {
    match pc
    case Check => 1
    case Wait => 0
    case Recheck => 6
    case Pop => 5
    case Dispatch(_) => 4
    case Done => 0
    case Crashed => 0
  }

  /** An upper bound on the steps left if no new call is made. */
  function Work(c: Conn): nat {
    8 * c.permits + LoopWork(c.loop) + SenderWork(c.sender) + 2 * |c.tasks|
  }

  lemma BeginWorkFalls(exts: seq<Extension>, c: Conn)
    requires Enabled(c, Begin(RunTask))
    ensures Work(AfterBegin(exts, c, RunTask)) < Work(c)
  {
  }

  lemma LoopWorkFalls(c: Conn)
    requires c.loop != Idle
    ensures Work(AfterLoop(c)) < Work(c)
  {
  }

  lemma SenderWorkFalls(c: Conn)
    requires Enabled(c, SenderStep)
    ensures Work(AfterSender(c)) < Work(c)
  {
  }

  lemma WorkFalls(exts: seq<Extension>, c: Conn, a: Action)
    requires Inv(exts, c) && Enabled(c, a) && IsInner(a)
    ensures Work(Next(exts, c, a)) < Work(c)
  {
    hide Inv, AfterBegin, AfterLoop, AfterSender, Work;
    match a
    case Begin(call) => BeginWorkFalls(exts, c);
    case LoopStep => LoopWorkFalls(c);
    case SenderStep => SenderWorkFalls(c);
  }

  /** Without new calls no run is longer than the bound. */
  lemma {:induction false} InnerRunsEnd(exts: seq<Extension>, c: Conn, actions: seq<Action>)
    requires Inv(exts, c) && IsRun(exts, c, actions) && forall a | a in actions :: IsInner(a)
    ensures |actions| + Work(After(exts, c, actions)) <= Work(c)
    decreases |actions|
  {
    hide Inv, Next, Enabled, Work, IsInner;
    if actions == [] {
    } else {
      assert actions[0] in actions;
      WorkFalls(exts, c, actions[0]);
      InvKept(exts, c, actions[0]);
      InnerRunsEnd(exts, Next(exts, c, actions[0]), actions[1..]);
    }
  }

  lemma RestMeansReturned(exts: seq<Extension>, c: Conn)
    requires Inv(exts, c) && AtRest(c) && c.status != Open
    ensures c.sender == Done && c.tasks == [] && c.loop == Idle
  {
    WokenSenderMoves(exts, c, LoopStep);
  }

  /** From any moment of any run, whatever is scheduled, the two threads come to rest within a bounded number of
      steps if no new call is made; an open connection is quiet then, and on any other the sender has returned
      and no task is left. */
  lemma ComesToRest(exts: seq<Extension>, now: seq<Action>, later: seq<Action>)
    requires IsRun(exts, OPENED, now + later) && IsRun(exts, OPENED, now)
    requires forall a | a in later :: IsInner(a)
    ensures |later| <= Work(After(exts, OPENED, now))
    ensures var c := After(exts, OPENED, now + later);
            AtRest(c) ==> if c.status == Open then Quiet(c) else c.sender == Done && c.tasks == [] && c.loop == Idle
  {
    RunSplit(exts, OPENED, now, later);
    RunInv(exts, now);
    RunInv(exts, now + later);
    InnerRunsEnd(exts, After(exts, OPENED, now), later);
    StuckMeansQuiet(exts, now + later);
    var c := After(exts, OPENED, now + later);
    hide IsRun, After;
    if AtRest(c) && c.status != Open {
      RestMeansReturned(exts, c);
    }
  }

  /** Between calls on an open connection the permits, the one in the sender's hand and the lag of the
      empty fragmented messages account for the queue exactly: the semaphore never runs ahead of it. */
  lemma PermitsAccount(exts: seq<Extension>, actions: seq<Action>)
    requires IsRun(exts, OPENED, actions)
    ensures var c := After(exts, OPENED, actions);
            c.status == Open && c.loop == Idle ==>
              && c.permits + Held(c.sender) + AllLag(exts, c.accepted) == |c.queue|
              && c.permits <= |c.queue|
  {
    RunInv(exts, actions);
    Started(exts);
    OpenSenderLives(exts, OPENED, actions);
  }

  /** On a quiet connection exactly the frames of the accepted messages have been written except the last
      few: as many stay queued as fragmented empty messages were accepted. */
  lemma QuietLag(exts: seq<Extension>, actions: seq<Action>)
    requires IsRun(exts, OPENED, actions)
    ensures var c := After(exts, OPENED, actions);
            Quiet(c) ==>
              && AllFrames(exts, c.accepted) == DataOf(c.out) + c.queue
              && |c.queue| == AllLag(exts, c.accepted)
  {
    FramesConserved(exts, actions);
    RunInv(exts, actions);
    var c := After(exts, OPENED, actions);
    if Quiet(c) {
      assert c.ran + [] + [] + c.queue + [] == c.ran + c.queue;
    }
  }

  /** There is no lag exactly when no message was both empty and fragmented. */
  lemma {:induction false} LagFree(exts: seq<Extension>, sents: seq<Sent>)
    ensures AllLag(exts, sents) == 0 <==>
              forall s | s in sents :: !(s.fragmentation && s.Message(exts).payload == [])
  {
    if sents == [] {
    } else {
      LagFree(exts, sents[..|sents| - 1]);
      assert sents == sents[..|sents| - 1] + [sents[|sents| - 1]];
    }
  }

  /** On a quiet connection every frame accepted has been written if and only if
      no fragmented empty message was accepted. */
  lemma QuietMeansWrittenIff(exts: seq<Extension>, actions: seq<Action>)
    requires IsRun(exts, OPENED, actions) && Quiet(After(exts, OPENED, actions))
    ensures var c := After(exts, OPENED, actions);
            DataOf(c.out) == AllFrames(exts, c.accepted) <==>
              forall s | s in c.accepted :: !(s.fragmentation && s.Message(exts).payload == [])
  {
    QuietLag(exts, actions);
    LagFree(exts, After(exts, OPENED, actions).accepted);
  }

  lemma OneStep(c: Conn, a: Action, rest: seq<Action>, c': Conn, last: Conn)
    requires Enabled(c, a) && Next([], c, a) == c'
    requires IsRun([], c', rest) && After([], c', rest) == last
    ensures IsRun([], c, [a] + rest) && After([], c, [a] + rest) == last
  {
    assert ([a] + rest)[1..] == rest;
  }

  /** A run on which a message stays behind: one empty binary message, fragmented. */
  lemma EmptyFragmentedStaysBehind()
    ensures var actions := [Begin(SendMessage(Sent([], BINARY, true, 1))), LoopStep, LoopStep, LoopStep, SenderStep];
            && IsRun([], OPENED, actions)
            && var c := After([], OPENED, actions);
               Quiet(c) && |c.accepted| == 1 && |c.queue| == 1 && c.out == []
  {
    var sent := Sent([], BINARY, true, 1);
    var send := Begin(SendMessage(sent));
    var c0 := OPENED;
    var c1 := c0.(loop := SendLock(sent.Frames([]), 0), accepted := [sent]);
    assert sent.Permits([]) == 0 && |sent.Frames([])| == 1;
    assert Enabled(c0, send) && Next([], c0, send) == c1;
    var c2 := AfterLoop(c1);
    var c3 := AfterLoop(c2);
    var c4 := AfterLoop(c3);
    var c5 := AfterSender(c4);
    hide Inv, BuildFrames, BuildCount;
    OneStep(c4, SenderStep, [], c5, c5);
    OneStep(c3, LoopStep, [SenderStep], c4, c5);
    OneStep(c2, LoopStep, [LoopStep, SenderStep], c3, c5);
    OneStep(c1, LoopStep, [LoopStep, LoopStep, SenderStep], c2, c5);
    OneStep(c0, send, [LoopStep, LoopStep, LoopStep, SenderStep], c1, c5);
  }
}

/** The connection object: the loop thread's methods, each tied to the operations the interleaved model
    gives that call (ws/websocket.h). */
module Websockets {
  import opened ByteArrays
  import opened Frames
  import opened Messages
  import opened Extensions
  import opened FrameBuilding
  import opened MessageParsing
  import opened Protocol
  import opened Handling
  import opened Answering

  class Websocket {
    const env: Env
    const endpoint: Endpoint
    const parser: MessageParser
    var status: ConnectionStatus
    var frameQueue: seq<Frame>
    var frameQueueSem: nat
    /** Bytes handed to the TCP connection. */
    var written: Bytes
    /** Messages handed to the endpoint. */
    var endpointMessages: seq<Message>
    /** Whether the TCP connection has been closed from here. */
    var hungUp: bool

    ghost var lockHeld: bool
    ghost var out: seq<Frame>
    /** The operations made on shared state, in order. */
    ghost var trace: seq<Op>

    constructor (env: Env, endpoint: Endpoint)
      ensures this.env == env && this.endpoint == endpoint && parser.env == env && Valid() && ParserValid()
      ensures Done() == UPGRADED && parser.stream == []
      ensures fresh(this) && fresh(parser.Repr())
    {
      this.env, this.endpoint := env, endpoint;
      parser := new MessageParser(env);
      status, hungUp := Open, false;
      frameQueue, frameQueueSem, written, endpointMessages := [], 0, [], [];
      lockHeld, out, trace := false, [], [];
      new;
      assert EncodeAll([]) == [];
    }

    /** What the callbacks so far amount to. */
    ghost function Done(): Handled
      reads this
    {
      Handled(trace, status, endpointMessages, hungUp)
    }

    ghost function State(): Shared
      reads this
    {
      Shared(status, frameQueue, frameQueueSem, lockHeld, out)
    }

    /** The shared state is the effect of the operations made, and the bytes written are those of the
        frames written. */
    ghost predicate Valid()
      reads this
    {
      State() == ExecAll(SHARED_OPENED, trace) && written == EncodeAll(out)
    }

    lemma StoredIsState()
      requires Valid()
      ensures Stored(Done()) == State()
    {
      hide ExecAll;
    }

    ghost predicate ParserValid()
      reads this, parser, parser.Repr()
    {
      parser.env == env && parser.Valid() && this !in parser.Repr()
    }

    /** The one operation is made and nothing else changes. */
    twostate predicate Made(op: Op)
      reads this
    {
      && trace == old(trace) + [op] && State() == Exec(old(State()), op) && Valid()
      && endpointMessages == old(endpointMessages) && hungUp == old(hungUp)
    }

    ghost method Log(op: Op)
      requires State() == Exec(ExecAll(SHARED_OPENED, trace), op) && written == EncodeAll(out)
      modifies this`trace
      ensures trace == old(trace) + [op] && Valid()
    {
      ExecAllSnoc(SHARED_OPENED, trace, op);
      hide ExecAll, Exec, EncodeAll;
      trace := trace + [op];
    }

    method ChangeStatus(to: ConnectionStatus)
      requires Valid()
      modifies this
      ensures Made(SetStatus(to))
    {
      status := to;
      Log(SetStatus(to));
    }

    method PostSemaphore()
      requires Valid()
      modifies this
      ensures Made(SemPost)
    {
      frameQueueSem := frameQueueSem + 1;
      Log(SemPost);
    }

    method WriteLock()
      requires Valid()
      modifies this
      ensures Made(LockQueue)
    {
      lockHeld := true;
      Log(LockQueue);
    }

    method WriteUnlock()
      requires Valid()
      modifies this
      ensures Made(UnlockQueue)
    {
      lockHeld := false;
      Log(UnlockQueue);
    }

    method SendFrameBytes(frame: Frame)
      requires Valid()
      modifies this
      ensures Made(WriteBytes(frame))
    {
      var bytes := Frames.ToBytes(frame);
      written := written + bytes;
      EncodeAllConcat(out, [frame]);
      EncodeAllOne(frame);
      out := out + [frame];
      Log(WriteBytes(frame));
    }

    /** The whole call makes the operations the model gives it, in that order. */
    twostate predicate Performs(call: Call, task: Option<Frame>)
      reads this
    {
      && Valid()
      && trace == old(trace) + Remaining(Enter(env.exts, old(status), call, task))
    }

    /** The builder has put the frames at the end of the queue. */
    method ReplaceQueue(queue: seq<Frame>, ghost frames: seq<Frame>)
      requires Valid() && queue == frameQueue + frames
      modifies this
      ensures Made(PushFrames(frames))
    {
      frameQueue := queue;
      Log(PushFrames(frames));
    }

    /** One post for each frame built. */
    method PostFrames(frameCount: nat)
      requires Valid()
      modifies this
      ensures Valid() && trace == old(trace) + Posts(frameCount)
      ensures status == old(status) && out == old(out) && frameQueue == old(frameQueue)
      ensures endpointMessages == old(endpointMessages) && hungUp == old(hungUp)
      ensures frameQueueSem == old(frameQueueSem) + frameCount
    {
      hide ExecAll, EncodeAll;
      var left := frameCount;
      while left > 0
        invariant 0 <= left <= frameCount
        invariant Valid() && trace == old(trace) + Posts(frameCount - left)
        invariant status == old(status) && out == old(out) && frameQueue == old(frameQueue)
        invariant endpointMessages == old(endpointMessages) && hungUp == old(hungUp)
        invariant frameQueueSem == old(frameQueueSem) + (frameCount - left)
      {
        PostsSnoc(old(trace), frameCount - left);
        PostSemaphore();
        left := left - 1;
      }
    }

    method SendMessage(bytes: Bytes, kind: Opcode, fragmentation: bool, mtu: nat)
      requires Valid() && Sent(bytes, kind, fragmentation, mtu).Valid()
      modifies this
      ensures Performs(Protocol.SendMessage(Sent(bytes, kind, fragmentation, mtu)), None)
      ensures status == old(status) && out == old(out)
      ensures endpointMessages == old(endpointMessages) && hungUp == old(hungUp)
      ensures old(status) == Open ==>
                var s := Sent(bytes, kind, fragmentation, mtu);
                && trace == old(trace) + ([LockQueue, PushFrames(s.Frames(env.exts))] + Posts(s.Permits(env.exts))
                                          + [UnlockQueue])
                && frameQueue == old(frameQueue) + s.Frames(env.exts)
                && frameQueueSem == old(frameQueueSem) + s.Permits(env.exts)
      ensures old(status) != Open ==> frameQueue == old(frameQueue) && frameQueueSem == old(frameQueueSem)
    {
      hide ExecAll, EncodeAll;
      if status != Open {
        assert trace == old(trace) + [];
        return;
      }
      ghost var s := Sent(bytes, kind, fragmentation, mtu);
      var message := BuildMessage(env.exts, bytes, kind);
      WriteLock();
      var queue, frameCount := Build(frameQueue, message, fragmentation, mtu);
      hide BuildFrames, BuildCount, Built;
      ReplaceQueue(queue, s.Frames(env.exts));
      PostFrames(frameCount);
      WriteUnlock();
      SendOperations(old(trace), s.Frames(env.exts), frameCount);
    }

    method CloseConnection(code: nat, reason: Bytes)
      requires Valid()
      modifies this
      ensures Performs(Protocol.CloseConnection(code, reason), None)
      ensures status == if old(status) == Open then Closing else old(status)
      ensures out == old(out) + if old(status) != Open then [] else
                [Frame(Header(true, Rsv(false, false, false), 8, false), [], [code / 256 % 256, code % 256] + reason)]
      ensures frameQueue == old(frameQueue)
      ensures frameQueueSem == old(frameQueueSem) + if old(status) == Open then 1 else 0
      ensures trace == old(trace) + if old(status) != Open then [] else
                [WriteBytes(ControlFrame(8, [code / 256 % 256, code % 256] + reason)), SetStatus(Closing), SemPost]
      ensures endpointMessages == old(endpointMessages) && hungUp == old(hungUp)
    {
      CloseFrameIs(code, reason);
      hide ExecAll, EncodeAll, BigEndian;
      if status != Open {
        assert trace == old(trace) + [];
        return;
      }
      var closeFrame := InitFrame(CONNECTION_CLOSE, true);
      var codeBytes := ByteArrays.ToBytes(code, 2);
      closeFrame := closeFrame.(payload := codeBytes + reason);
      SendFrameBytes(closeFrame);
      ChangeStatus(Closing);
      PostSemaphore();
    }

    method OnControlFrame(frame: Frame)
      requires Valid()
      modifies this
      ensures Performs(Protocol.OnControlFrame(frame), None)
      ensures status == if !frame.IsClose() then old(status) else if old(status) == Open then Closing else Closed
      ensures out == old(out) +
                if old(status) != Open then []
                else if frame.header.opcode == 8 then
                  [Frame(Header(true, Rsv(false, false, false), 8, false), [], frame.payload)]
                else if frame.header.opcode == 9 then
                  [Frame(Header(true, Rsv(false, false, false), 10, false), [], frame.payload)]
                else []
      ensures frameQueue == old(frameQueue)
      ensures frameQueueSem == old(frameQueueSem) + if old(status) == Open && frame.header.opcode == 8 then 1 else 0
      ensures trace == old(trace) +
                if frame.header.opcode == 8 && old(status) == Open then
                  [SetStatus(Closing), SemPost, WriteBytes(ControlFrame(8, frame.payload))]
                else if frame.header.opcode == 8 && old(status) == Closing then [SetStatus(Closed)]
                else if frame.header.opcode == 9 && old(status) == Open then
                  [WriteBytes(ControlFrame(10, frame.payload))]
                else []
      ensures hungUp == (old(hungUp) || (frame.header.opcode == 8 && old(status) != Closed))
      ensures endpointMessages == old(endpointMessages)
    {
      hide ExecAll, EncodeAll;
      if frame.header.opcode == CONNECTION_CLOSE {
        if status == Open {
          ChangeStatus(Closing);
          PostSemaphore();
          var closeFrame := InitFrame(CONNECTION_CLOSE, true);
          closeFrame := closeFrame.(payload := frame.payload);
          SendFrameBytes(closeFrame);
          hungUp := true;
          return;
        } else if status == Closing {
          ChangeStatus(Closed);
          hungUp := true;
          return;
        }
      } else if frame.header.opcode == PING {
        if status == Open {
          var pongFrame := InitFrame(PONG, true);
          pongFrame := pongFrame.(payload := frame.payload);
          SendFrameBytes(pongFrame);
          return;
        }
      }
      assert trace == old(trace) + [];
    }

    method OnTCPConnectionClose()
      requires Valid()
      modifies this
      ensures Performs(OnTCPClose, None)
      ensures trace == old(trace) + if old(status) == Open then [SetStatus(Closed), SemPost, SetStatus(Closed)]
                                    else [SetStatus(Closed)]
      ensures status == Closed && out == old(out) && frameQueue == old(frameQueue)
      ensures frameQueueSem == old(frameQueueSem) + if old(status) == Open then 1 else 0
      ensures endpointMessages == old(endpointMessages) && hungUp == old(hungUp)
    {
      if status == Open {
        ChangeStatus(Closed);
        PostSemaphore();
      }
      ChangeStatus(Closed);
    }

    /** Runs on the loop thread for each frame the sender hands over. */
    method SendMessageFrame(frame: Frame)
      requires Valid()
      modifies this
      ensures Performs(RunTask, Some(frame))
      ensures status == old(status) && endpointMessages == old(endpointMessages) && hungUp == old(hungUp)
      ensures out == if status == Open then old(out) + [frame] else old(out)
      ensures frameQueue == old(frameQueue) && frameQueueSem == old(frameQueueSem)
    {
      if status != Open {
        assert trace == old(trace) + [];
        return;
      }
      SendFrameBytes(frame);
    }

    /** What the endpoint does with its session, call by call. */
    method React(reactions: seq<Reaction>)
      requires Valid()
      modifies this
      ensures Valid() && Done() == HandleReactions(env, old(Done()), reactions)
      ensures old(status) == Open ==>
                && frameQueue == old(frameQueue) + AllFrames(env.exts, RepliesOf(reactions))
                && frameQueueSem == old(frameQueueSem) + Posted(env.exts, reactions)
                && out == old(out) + HangUpFrames(reactions)
      ensures old(status) != Open ==>
                frameQueue == old(frameQueue) && frameQueueSem == old(frameQueueSem) && out == old(out)
    {
      hide Valid, AllFrames, RepliesOf, Posted, HangUpFrames, Stored, Sent.Frames, Sent.Permits, BigEndian;
      hide Enter, Remaining, EncodeAll, ExecAll, Closes;
      StoredIsState();
      if status == Open {
        ReactionsAdd(env, Done(), reactions);
      } else {
        ClosedAddsNothing(env, Done(), reactions);
      }
      var i := 0;
      ghost var start := Done();
      while i < |reactions|
        invariant i <= |reactions| && Valid()
        invariant HandleReactions(env, start, reactions) == HandleReactions(env, Done(), reactions[i..])
      {
        match reactions[i] {
          case Reply(sent) => SendMessage(sent.bytes, sent.kind, sent.fragmentation, sent.mtu);
          case HangUp(code, reason) => CloseConnection(code, reason);
        }
        assert reactions[i..][1..] == reactions[i + 1..];
        i := i + 1;
      }
      StoredIsState();
    }

    method OnMessage(message: Message)
      requires Valid()
      modifies this
      ensures Valid() && Done() == HandleOne(env, endpoint, old(Done()), Delivered(message))
    {
      if status != Open {
        return;
      }
      endpointMessages := endpointMessages + [message];
      React(endpoint(endpointMessages));
    }

    method Callback(event: Event)
      requires Valid()
      modifies this
      ensures Valid() && Done() == HandleOne(env, endpoint, old(Done()), event)
    {
      hide Enter, EncodeAll, ExecAll, HandleReactions;
      match event {
        case Control(f) => OnControlFrame(f);
        case Delivered(m) => OnMessage(m);
      }
    }

    /** The callbacks of one read, in order. */
    method Dispatch(events: seq<Event>)
      requires Valid()
      modifies this
      ensures Valid() && Done() == HandleAll(env, endpoint, old(Done()), events)
    {
      hide HandleOne, EncodeAll, ExecAll;
      var i := 0;
      ghost var start := Done();
      while i < |events|
        invariant i <= |events| && Valid()
        invariant HandleAll(env, endpoint, start, events) == HandleAll(env, endpoint, Done(), events[i..])
      {
        Callback(events[i]);
        assert events[i..][1..] == events[i + 1..];
        i := i + 1;
      }
    }

    /** A read: the events of the stream it completes are handled in order, with whatever the endpoint does
        meanwhile, and a bad stream closes the connection from this side. */
    method OnTCPData(bytes: Bytes)
      requires Valid() && ParserValid() && bytes != []
      modifies this, parser.Repr()
      ensures Valid() && ParserValid() && fresh(parser.Repr() - old(parser.Repr()))
      ensures parser.stream == old(parser.stream) + bytes
      ensures var st := Scan(env, FRESH, old(parser.stream)).status;
              && Done() == AfterRead(env, endpoint, st, old(Done()), bytes)
              && endpointMessages == old(endpointMessages) +
                   (if old(status) == Open then Heard(endpoint, old(endpointMessages), Resume(env, st, bytes).events)
                    else [])
      ensures ReadGrew(env, endpoint, Scan(env, FRESH, old(parser.stream)).status, old(status), old(endpointMessages),
                       old(State()), State(), bytes)
    {
      hide Stored, Scan, Resume, HandleAll, Remaining, Enter, Heard, ExecAll, EncodeAll, Reports, Parsed, BigEndian;
      hide ReadGrew, Decode, Take;
      ghost var st := Scan(env, FRESH, parser.stream).status;
      ghost var before := Done();
      StoredIsState();
      var seen := |parser.events|;
      var res, _ := parser.Parse(bytes);
      var events := parser.events[seen..];
      assert events == Resume(env, st, bytes).events;
      Dispatch(events);
      if res == ParseError {
        CloseConnection(PROTOCOL_ERROR, PROTOCOL_ERROR_TEXT);
      }
      assert Done() == AfterRead(env, endpoint, st, before, bytes);
      hide AfterRead;
      StoredIsState();
      ReadGrows(env, endpoint, st, before, bytes);
      ReadHears(env, endpoint, st, before, bytes);
    }
  }
}

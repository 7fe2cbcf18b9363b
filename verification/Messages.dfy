/** Messages assembled from frames (ws/ws_message.h). */
module Messages {
  import opened ByteArrays
  import opened Frames

  /** The value of a message object. The kind is the opcode of its first frame, 0 while there is none. */
  datatype Message = Message(kind: Opcode, payload: Bytes, rsv: Rsv, complete: bool, frameCount: nat)

  const FRESH := Message(0, [], NO_RSV, false, 0)

  /** What `addFrame` leaves behind, whether it accepts the frame or not. */
  datatype Added = Added(ok: bool, message: Message)

  /** The text check at the end of a message. */
  function Closed(textOk: Bytes -> bool, m: Message): Added {
    Added(m.complete && m.kind == TEXT ==> textOk(m.payload), m)
  }

  function AfterFrame(textOk: Bytes -> bool, m: Message, f: Frame): Added {
    if m.complete then Added(false, m)
    else if m.kind == 0 then
      if f.header.opcode == CONTINUATION then Added(false, m)
      else Closed(textOk, Message(f.header.opcode, f.payload, f.header.rsv, f.header.fin, m.frameCount + 1))
    else if f.header.opcode != CONTINUATION || f.header.rsv.Any() then Added(false, m)
    else Closed(textOk, Message(m.kind, m.payload + f.payload, m.rsv, f.header.fin, m.frameCount + 1))
  }

  class WebsocketMessage {
    var kind: Opcode
    var payload: Bytes
    var rsv: Rsv
    var complete: bool
    var frameCount: nat

    constructor ()
      ensures Value() == FRESH
    {
      kind, payload, rsv, complete, frameCount := 0, [], NO_RSV, false, 0;
    }

    function Value(): Message
      reads this
    {
      Message(kind, payload, rsv, complete, frameCount)
    }

    method AddFrame(textOk: Bytes -> bool, frame: Frame) returns (ok: bool)
      modifies this
      ensures Added(ok, Value()) == AfterFrame(textOk, old(Value()), frame)
    {
      if complete {
        return false;
      }
      if kind == 0 {
        kind := frame.header.opcode;
        if kind == 0 {
          return false;
        }
        payload := frame.payload;
        rsv := frame.header.rsv;
      } else {
        if frame.header.opcode != CONTINUATION {
          return false;
        }
        if frame.header.rsv.rsv1 || frame.header.rsv.rsv2 || frame.header.rsv.rsv3 {
          return false;
        }
        payload := payload + frame.payload;
      }
      complete := frame.header.fin;
      frameCount := frameCount + 1;
      if complete && kind == TEXT {
        if !textOk(payload) {
          return false;
        }
      }
      return true;
    }
  }

  // ---- Whole messages -------------------------------------------------------

  /** The message after adding the frames in order, if every one is accepted. */
  function AddAll(textOk: Bytes -> bool, fs: seq<Frame>): Option<Message> {
    if fs == [] then Some(FRESH)
    else
      match AddAll(textOk, fs[..|fs| - 1])
      case None => None
      case Some(m) =>
        var a := AfterFrame(textOk, m, fs[|fs| - 1]);
        if a.ok then Some(a.message) else None
  }

  function Payloads(fs: seq<Frame>): Bytes {
    if fs == [] then [] else Payloads(fs[..|fs| - 1]) + fs[|fs| - 1].payload
  }

  /** The fragmentation rules of section 5.4 of RFC 6455 on data frames: the first frame names the kind
      and may carry RSV bits, every other one is a plain continuation, and none but the last is final. */
  ghost predicate OneMessage(fs: seq<Frame>) {
    && fs != []
    && fs[0].header.opcode != CONTINUATION
    && (forall i :: 0 < i < |fs| ==> fs[i].header.opcode == CONTINUATION && !fs[i].header.rsv.Any())
    && (forall i :: 0 <= i < |fs| - 1 ==> !fs[i].header.fin)
  }

  lemma OneMessageSnoc(fs: seq<Frame>)
    requires fs != []
    ensures OneMessage(fs) <==>
              var front, last := fs[..|fs| - 1], fs[|fs| - 1];
              if front == [] then last.header.opcode != CONTINUATION
              else
                && OneMessage(front) && !front[|front| - 1].header.fin
                && last.header.opcode == CONTINUATION && !last.header.rsv.Any()
  {
    var front, last := fs[..|fs| - 1], fs[|fs| - 1];
    assert forall i :: 0 <= i < |front| ==> fs[i] == front[i];
    if front != [] && OneMessage(fs) {
      assert OneMessage(front);
    }
  }

  /** Frames are accepted one after another exactly when they keep the rules and a finished text passes
      its check, and they make the message they spell. */
  lemma {:induction false} AddAllOpen(textOk: Bytes -> bool, fs: seq<Frame>)
    requires fs != []
    ensures AddAll(textOk, fs).Some? <==>
              && OneMessage(fs)
              && (fs[|fs| - 1].header.fin && fs[0].header.opcode == TEXT ==> textOk(Payloads(fs)))
    ensures AddAll(textOk, fs).Some? ==>
              AddAll(textOk, fs).value
              == Message(fs[0].header.opcode, Payloads(fs), fs[0].header.rsv, fs[|fs| - 1].header.fin, |fs|)
  {
    var front := fs[..|fs| - 1];
    OneMessageSnoc(fs);
    hide OneMessage;
    if |fs| == 1 {
      assert front == [];
      assert Payloads(fs) == fs[0].payload;
    } else {
      AddAllOpen(textOk, front);
      assert front[0] == fs[0];
    }
  }

  /** Exactly which frame sequences make a complete message, and what message they make. */
  lemma CompleteMessageExactly(textOk: Bytes -> bool, fs: seq<Frame>, m: Message)
    ensures AddAll(textOk, fs) == Some(m) && m.complete <==>
              && OneMessage(fs) && fs[|fs| - 1].header.fin
              && (fs[0].header.opcode == TEXT ==> textOk(Payloads(fs)))
              && m == Message(fs[0].header.opcode, Payloads(fs), fs[0].header.rsv, true, |fs|)
  {
    if fs != [] {
      AddAllOpen(textOk, fs);
    }
  }
}

/** The resumable frame parser (ws/ws_frame_parser.h). */
module FrameParsing {
  import opened ByteArrays
  import opened Frames

  datatype ParserStatus = HEADER | PAYLOAD_LENGTH | MASK_KEY | PAYLOAD

  const SIZE_MAX: nat := UINT64_SPAN - 1

  lemma SlicesGrow(s: Bytes, input: byte, i: nat, j: nat)
    requires i <= j <= |s|
    ensures (s + [input])[i..j] == s[i..j] && (s + [input])[j..] == s[j..] + [input]
  {
  }

  class FrameParser {
    var result: ParseResult
    var frame: Frame
    var buffer: Bytes
    var status: ParserStatus
    var headerBytes: int
    var payloadLengthBytes: int
    var maskKeyBytes: int
    var payloadLength: nat
    const maxPayloadLength: nat

    /** Every byte this parser has consumed. */
    ghost var received: Bytes

    constructor (maxPayloadLength: nat)
      ensures this.maxPayloadLength == maxPayloadLength
      ensures InProgress() && received == [] && result == Incomplete
    {
      this.maxPayloadLength := maxPayloadLength;
      result := Incomplete;
      frame := InitFrame(CONTINUATION, false);
      buffer := [];
      status := HEADER;
      headerBytes := 2;
      payloadLengthBytes := 0;
      maskKeyBytes := 4;
      payloadLength := 0;
      received := [];
    }

    /** The declared sizes, read off the bytes already received. */
    ghost function LengthField(): nat
      reads this
      requires |received| >= 2
    {
      LengthBytes(received[1] % 128)
    }

    ghost function Length(): nat
      reads this
      requires |received| >= 2 && |received| >= 2 + LengthField()
    {
      if LengthField() == 0 then received[1] % 128 else Value(received[2..2 + LengthField()])
    }

    ghost function BodyStart(): nat
      reads this
      requires |received| >= 2
    {
      2 + LengthField() + if frame.header.mask then 4 else 0
    }

    /** Two bytes are in, the header is theirs and passed the first size test. */
    ghost predicate HeaderRead()
      reads this
    {
      && |received| >= 2
      && frame.header == HeaderOf(received[0], received[1])
      && received[1] % 128 <= maxPayloadLength
    }

    /** The length is known and acceptable. */
    ghost predicate LengthRead()
      reads this
    {
      && HeaderRead()
      && |received| >= 2 + LengthField()
      && (LengthField() > 0 ==> LeastLength(received[1] % 128) <= Length() <= maxPayloadLength)
    }

    /** Key and payload hold what was received after the length, the key first. */
    ghost predicate PartsMatch(done: nat)
      reads this
    {
      && LengthRead()
      && done == |frame.payload|
      && BodyStart() + done == |received|
      && frame.maskKey == received[2 + LengthField()..BodyStart()]
      && frame.payload == received[BodyStart()..]
    }

    /** A frame is being read: each countdown is what is missing from its declared total. */
    ghost predicate InProgress()
      reads this
    {
      match status
      case HEADER =>
        && |received| < 2 && buffer == received && headerBytes == 2 - |received|
        && maskKeyBytes == 4 && frame.maskKey == [] && frame.payload == []
      case PAYLOAD_LENGTH =>
        && HeaderRead() && LengthField() > 0 && buffer == received[2..]
        && 0 < payloadLengthBytes == LengthField() - |buffer|
        && maskKeyBytes == 4 && frame.maskKey == [] && frame.payload == []
      case MASK_KEY =>
        && LengthRead() && frame.header.mask && payloadLength == Length()
        && frame.maskKey == received[2 + LengthField()..]
        && 0 < maskKeyBytes == 4 - |frame.maskKey| && frame.payload == []
      case PAYLOAD =>
        && PartsMatch(|frame.payload|) && 0 < payloadLength == Length() - |frame.payload|
    }

    /** A whole frame has been read and every countdown of its last stage is spent. */
    ghost predicate Finished()
      reads this
    {
      && Decode(maxPayloadLength, received) == Got(frame, |received|)
      && match status
         case HEADER => headerBytes == 0
         case PAYLOAD_LENGTH => false
         case MASK_KEY => maskKeyBytes == 0
         case PAYLOAD => payloadLength == 0
    }

    ghost predicate Valid()
      reads this
    {
      result == ParseError || Finished() || (InProgress() && result == Incomplete)
    }

    /** While a frame is being read, what was received so far is no whole frame. */
    lemma InProgressNeedsMore()
      requires InProgress()
      ensures Decode(maxPayloadLength, received).Need?
    {
    }

    // ---- One byte -----------------------------------------------------------

    /** What consuming one byte of an unfinished frame does: the verdict on all bytes so far. */
    twostate predicate Consumed(input: byte, res: ParseResult)
      reads this
    {
      && received == old(received) + [input]
      && match Decode(maxPayloadLength, received)
         case Need => res == Incomplete && InProgress()
         case Got(f, size) => res == Complete && frame == f && size == |received| && Finished()
         case Bad(at) => res == ParseError && at == |received|
    }

    method OnHeaderByte(input: byte) returns (res: ParseResult)
      requires InProgress() && status == HEADER
      modifies this
      ensures result == old(result)
      ensures Consumed(input, res)
    {
      hide Masked, Value;
      received := received + [input];
      headerBytes := headerBytes - 1;
      buffer := buffer + [input];
      if headerBytes == 0 {
        frame := frame.(header := HeaderOf(buffer[0], buffer[1]));
        var length7 := buffer[1] % 128;
        buffer := [];
        if maxPayloadLength < length7 {
          return ParseError;
        }
        if length7 == 0 {
          payloadLength := 0;
          if frame.header.mask {
            status := MASK_KEY;
          } else {
            assert frame == Frame(frame.header, [], []);
            return Complete;
          }
        } else if length7 <= 125 {
          payloadLength := length7;
          status := if frame.header.mask then MASK_KEY else PAYLOAD;
        } else {
          payloadLengthBytes := if length7 == 126 then 2 else 8;
          status := PAYLOAD_LENGTH;
        }
      }
      return Incomplete;
    }

    method OnLengthByte(input: byte) returns (res: ParseResult)
      requires InProgress() && status == PAYLOAD_LENGTH
      modifies this
      ensures result == old(result)
      ensures Consumed(input, res)
    {
      received := received + [input];
      payloadLengthBytes := payloadLengthBytes - 1;
      buffer := buffer + [input];
      assert buffer == received[2..];
      if payloadLengthBytes == 0 {
        assert buffer == received[2..2 + LengthField()];
        res := OnLengthField();
      } else {
        res := Incomplete;
      }
    }

    /** The length field is complete: accept it if it is within the limit and not in too long a form. */
    method OnLengthField() returns (res: ParseResult)
      requires HeaderRead() && LengthField() > 0 && |received| == 2 + LengthField()
      requires status == PAYLOAD_LENGTH && buffer == received[2..2 + LengthField()]
      requires maskKeyBytes == 4 && frame.maskKey == [] && frame.payload == []
      modifies this
      ensures result == old(result) && received == old(received)
      ensures if LeastLength(received[1] % 128) <= Length() <= maxPayloadLength
              then res == Incomplete && LengthRead() && InProgress()
              else res == ParseError
    {
      if |buffer| == 2 {
        var length := FromBytes(buffer, 2);
        if maxPayloadLength < length.value || length.value < 126 {
          return ParseError;
        }
        payloadLength := length.value;
      } else {
        var length := FromBytes(buffer, 8);
        if maxPayloadLength < length.value || length.value < UINT16_MAX {
          return ParseError;
        }
        payloadLength := length.value;
      }
      buffer := [];
      status := if frame.header.mask then MASK_KEY else PAYLOAD;
      return Incomplete;
    }

    method OnMaskByte(input: byte) returns (res: ParseResult)
      requires InProgress() && status == MASK_KEY
      modifies this
      ensures result == old(result)
      ensures Consumed(input, res)
    {
      hide Value, HeaderOf, Masked, Decode;
      KeepsLength(input);
      SlicesGrow(received, input, 2, 2 + LengthField());
      received := received + [input];
      maskKeyBytes := maskKeyBytes - 1;
      frame := frame.(maskKey := frame.maskKey + [input]);
      assert LengthField() == old(LengthField()) && Length() == old(Length()) && BodyStart() == old(BodyStart());
      assert frame.maskKey == received[2 + LengthField()..];
      hide PartsMatch;
      if maskKeyBytes == 0 {
        if payloadLength > 0 {
          status := PAYLOAD;
          KeyIsIn();
        } else {
          KeyIsIn();
          EmptyMaskedFrame();
          return Complete;
        }
      }
      InProgressNeedsMore();
      return Incomplete;
    }

    method OnPayloadByte(input: byte) returns (res: ParseResult)
      requires InProgress() && status == PAYLOAD
      modifies this
      ensures result == old(result)
      ensures Consumed(input, res)
    {
      hide Value, HeaderOf, Masked, Decode;
      KeepsLength(input);
      SlicesGrow(received, input, 2 + LengthField(), BodyStart());
      received := received + [input];
      payloadLength := payloadLength - 1;
      frame := frame.(payload := frame.payload + [input]);
      assert LengthField() == old(LengthField()) && Length() == old(Length()) && BodyStart() == old(BodyStart());
      assert PartsMatch(|frame.payload|);
      if payloadLength == 0 {
        res := OnPayload();
      } else {
        InProgressNeedsMore();
        res := Incomplete;
      }
    }

    /** The whole payload is in: undo the mask. */
    method OnPayload() returns (res: ParseResult)
      requires PartsMatch(|frame.payload|) && |frame.payload| == Length()
      requires status == PAYLOAD && payloadLength == 0
      modifies this`frame
      ensures res == Complete && Finished()
    {
      WholeFrame();
      if frame.header.mask {
        Unmask();
      }
      return Complete;
    }

    /** With the whole payload in, the bytes received are one frame. */
    lemma WholeFrame()
      requires PartsMatch(|frame.payload|) && |frame.payload| == Length()
      ensures Decode(maxPayloadLength, received)
           == Got(if frame.header.mask then frame.(payload := Masked(frame.maskKey, frame.payload)) else frame,
                  |received|)
    {
      hide Masked, Value, HeaderOf;
      var body := received[BodyStart()..BodyStart() + Length()];
      assert body == received[BodyStart()..] == frame.payload;
    }

    /** With the whole key in, key and payload match what was received. */
    lemma KeyIsIn()
      requires LengthRead() && frame.header.mask && frame.payload == []
      requires frame.maskKey == received[2 + LengthField()..] && |frame.maskKey| == 4
      ensures PartsMatch(0)
    {
      hide Value, HeaderOf;
      assert received[2 + LengthField()..BodyStart()] == frame.maskKey && received[BodyStart()..] == [];
    }

    /** With the whole key in and no payload declared, the bytes received are one frame. */
    lemma EmptyMaskedFrame()
      requires PartsMatch(0) && frame.header.mask && Length() == 0
      ensures Decode(maxPayloadLength, received) == Got(frame, |received|)
    {
      assert frame.payload == [] && Masked(frame.maskKey, []) == [];
      hide *;
      WholeFrame();
    }

    /** XORs the payload with the key in place. */
    method Unmask()
      requires |frame.maskKey| == 4
      modifies this`frame
      ensures frame == old(frame).(payload := Masked(old(frame).maskKey, old(frame).payload))
      ensures |frame.payload| == |old(frame).payload|
      ensures forall i :: 0 <= i < |frame.payload| ==>
                            IsXor(frame.payload[i], old(frame).payload[i], old(frame).maskKey[i % 4])
    {
      hide IsXor, Xor;
      MaskedByKey(frame.maskKey, frame.payload);
      var length := |frame.payload|;
      ghost var wire := frame.payload;
      var i := 0;
      while i < length
        invariant 0 <= i <= length == |frame.payload|
        invariant frame == old(frame).(payload := frame.payload)
        invariant forall k :: 0 <= k < i ==> frame.payload[k] == Xor(wire[k], frame.maskKey[k % 4])
        invariant forall k :: i <= k < length ==> frame.payload[k] == wire[k]
      {
        frame := frame.(payload := frame.payload[i := Xor(frame.payload[i], frame.maskKey[i % 4])]);
        i := i + 1;
      }
      assert frame.payload == Masked(frame.maskKey, wire);
    }

    /** One more byte leaves the header and length already read as they are. */
    lemma KeepsLength(input: byte)
      requires LengthRead()
      ensures var r := received + [input];
              && r[0] == received[0] && r[1] == received[1]
              && r[2..2 + LengthField()] == received[2..2 + LengthField()]
    {
    }

    // ---- The byte loop ------------------------------------------------------

    /** What one call tells about an unfinished frame: the verdict on all bytes since it began,
        and exactly how many of the new bytes that took. */
    ghost predicate Verdict(before: Bytes, input: Bytes, res: ParseResult, nparsed: nat)
      reads this
    {
      && nparsed <= |input| && received == before + input[..nparsed]
      && match Decode(maxPayloadLength, before + input)
         case Need => res == Incomplete && nparsed == |input| && InProgress()
         case Got(f, size) => res == Complete && |before| + nparsed == size && frame == f && Finished()
         case Bad(at) => res == ParseError && |before| + nparsed == at
    }

    method Consume(input: Bytes) returns (res: ParseResult, nparsed: nat)
      requires InProgress()
      modifies this
      ensures result == old(result)
      ensures Verdict(old(received), input, res, nparsed)
    {
      hide Decode, InProgress, Finished;
      nparsed := 0;
      while nparsed < |input|
        invariant nparsed <= |input|
        invariant InProgress() && result == old(result)
        invariant received == old(received) + input[..nparsed]
      {
        var b := input[nparsed];
        nparsed := nparsed + 1;
        assert old(received) + input[..nparsed] == received + [b];
        res := OnByte(b);
        if res != Incomplete {
          DecodeStable(maxPayloadLength, received, input[nparsed..]);
          assert old(received) + input == received + input[nparsed..];
          return;
        }
      }
      assert input[..nparsed] == input;
      InProgressNeedsMore();
      res := Incomplete;
    }

    /** The first test of the byte loop, met with its countdown already spent. */
    method ConsumeAfterEnd(input: Bytes) returns (res: ParseResult, nparsed: nat)
      requires Finished()
      modifies this`headerBytes, this`maskKeyBytes, this`payloadLength
      ensures if input == [] then res == Incomplete && nparsed == 0 && Finished()
              else res == ParseError && nparsed == 1
    {
      if input == [] {
        return Incomplete, 0;
      }
      match status {
        case HEADER => headerBytes := headerBytes - 1;
        case MASK_KEY => maskKeyBytes := maskKeyBytes - 1;
        case PAYLOAD => payloadLength := SIZE_MAX;
      }
      return ParseError, 1;
    }

    method OnByte(input: byte) returns (res: ParseResult)
      requires InProgress()
      modifies this
      ensures result == old(result)
      ensures Consumed(input, res)
    {
      match status {
        case HEADER => res := OnHeaderByte(input);
        case PAYLOAD_LENGTH => res := OnLengthByte(input);
        case MASK_KEY => res := OnMaskByte(input);
        case PAYLOAD => res := OnPayloadByte(input);
      }
    }

    /** One call. An error is permanent and leaves the caller's count alone. */
    method Parse(input: Bytes, count: nat) returns (res: ParseResult, nparsed: nat)
      requires Valid()
      modifies this
      ensures Valid() && result == res
      ensures old(result) == ParseError ==> res == ParseError && nparsed == count
      ensures old(result) != ParseError && old(Finished()) ==>
                if input == [] then res == Incomplete && nparsed == 0 && Finished()
                else res == ParseError && nparsed == 1
      ensures old(result) != ParseError && old(InProgress()) ==>
                Verdict(old(received), input, res, nparsed)
    {
      if result == ParseError {
        return ParseError, count;
      }
      if Done() {
        res, nparsed := ConsumeAfterEnd(input);
      } else {
        res, nparsed := Consume(input);
      }
      result := res;
    }

    /** Whether the countdown of the current stage is spent. */
    predicate Done()
      reads this
    {
      match status
      case HEADER => headerBytes <= 0
      case PAYLOAD_LENGTH => payloadLengthBytes <= 0
      case MASK_KEY => maskKeyBytes <= 0
      case PAYLOAD => payloadLength == 0
    }
  }
}

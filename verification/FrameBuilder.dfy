/** Cutting a message into frames (ws/ws_frame_builder.h). */
module FrameBuilding {
  import opened ByteArrays
  import opened Frames
  import opened Messages

  /** The number of fragments: the payload length over the fragment size, rounded up. */
  function CeilDiv(length: nat, mtu: nat): nat
    requires mtu > 0
  {
    (length + mtu - 1) / mtu
  }

  /** The count `build` returns, which is 0 for a fragmented empty message. */
  function BuildCount(length: nat, fragmentation: bool, mtu: nat): nat
    requires fragmentation ==> mtu > 0
  {
    if fragmentation then CeilDiv(length, mtu) else 1
  }

  function Min(a: nat, b: nat): nat { if a <= b then a else b }

  function Single(m: Message): Frame {
    InitFrame(m.kind, true).(payload := m.payload)
  }

  /** The i-th of n fragments: the bytes from i*mtu up to the next boundary or the end. */
  function Fragment(m: Message, i: nat, n: nat, mtu: nat): Frame
    requires i * mtu <= |m.payload|
  {
    Frame(Header(i == n - 1, if i == 0 then m.rsv else NO_RSV, if i == 0 then m.kind else CONTINUATION, false),
          [], m.payload[i * mtu..Min(i * mtu + mtu, |m.payload|)])
  }

  lemma LinearMul(a: nat, b: nat, k: nat)
    requires a <= b
    ensures a * k <= b * k
  {
  }

  /** Every fragment but the last ends on a boundary inside the payload; the last one reaches its end. */
  lemma FragmentBounds(length: nat, mtu: nat, i: nat)
    requires mtu > 0 && i < CeilDiv(length, mtu)
    ensures i * mtu < length
    ensures i < CeilDiv(length, mtu) - 1 <==> i * mtu + mtu < length
    ensures (i + 1) * mtu == i * mtu + mtu
  {
    var n := CeilDiv(length, mtu);
    var r := length + mtu - 1 - n * mtu;
    assert 0 <= r < mtu;
    assert (i + 1) * mtu == i * mtu + mtu;
    if i < n - 1 {
      LinearMul(i + 2, n, mtu);
      assert (i + 2) * mtu == i * mtu + 2 * mtu;
    } else {
      assert n == i + 1;
    }
  }

  function FragmentFrames(m: Message, mtu: nat): (fs: seq<Frame>)
    requires mtu > 0
    ensures |fs| == CeilDiv(|m.payload|, mtu)
  {
    var n := CeilDiv(|m.payload|, mtu);
    seq(n, i requires 0 <= i < n => FragmentBounds(|m.payload|, mtu, i); Fragment(m, i, n, mtu))
  }

  /** The frames of a message, in the order they are queued. */
  function BuildFrames(m: Message, fragmentation: bool, mtu: nat): (fs: seq<Frame>)
    requires fragmentation ==> mtu > 0
  {
    if BuildCount(|m.payload|, fragmentation, mtu) > 1 then FragmentFrames(m, mtu) else [Single(m)]
  }

  method BuildFragment(message: Message, index: nat, mtu: nat) returns (frame: Frame)
    requires mtu > 0 && 1 < CeilDiv(|message.payload|, mtu) && index < CeilDiv(|message.payload|, mtu)
    ensures frame == FragmentFrames(message, mtu)[index]
  {
    FragmentBounds(|message.payload|, mtu, index);
    var offset := index * mtu;
    var size := mtu;
    if index == 0 {
      frame := InitFrame(message.kind, false);
      frame := frame.(header := frame.header.(rsv := message.rsv));
    } else {
      frame := InitFrame(CONTINUATION, false);
      if offset + mtu >= |message.payload| {
        frame := frame.(header := frame.header.(fin := true));
        size := |message.payload| - offset;
      }
    }
    frame := frame.(payload := message.payload[offset..offset + size]);
  }

  method BuildSingle(message: Message) returns (frame: Frame)
    ensures frame == Single(message)
  {
    frame := InitFrame(message.kind, true);
    frame := frame.(payload := message.payload);
  }

  lemma OneMoreFrame(before: seq<Frame>, fs: seq<Frame>, i: nat)
    requires i < |fs|
    ensures before + fs[..i] + [fs[i]] == before + fs[..i + 1]
  {
  }

  /** Queues the frames of a message behind what is queued already. */
  method Build(frameQueue: seq<Frame>, message: Message, fragmentation: bool, mtu: nat)
      returns (queue: seq<Frame>, count: nat)
    requires fragmentation ==> mtu > 0
    ensures queue == frameQueue + BuildFrames(message, fragmentation, mtu)
    ensures count == BuildCount(|message.payload|, fragmentation, mtu)
  {
    queue := frameQueue;
    count := if fragmentation then (|message.payload| + mtu - 1) / mtu else 1;
    if count > 1 {
      ghost var fs := FragmentFrames(message, mtu);
      assert fs == BuildFrames(message, fragmentation, mtu) && count == CeilDiv(|message.payload|, mtu);
      hide *;
      var i := 0;
      while i < count
        invariant i <= count && queue == frameQueue + fs[..i]
      {
        var frame := BuildFragment(message, i, mtu);
        OneMoreFrame(frameQueue, fs, i);
        queue := queue + [frame];
        i := i + 1;
      }
      assert fs[..count] == fs;
    } else {
      var frame := BuildSingle(message);
      queue := queue + [frame];
    }
  }

  /** One permit is posted per frame, except that a fragmented empty message queues a frame and posts none. */
  lemma CountLags(m: Message, fragmentation: bool, mtu: nat)
    requires fragmentation ==> mtu > 0
    ensures |BuildFrames(m, fragmentation, mtu)|
         == BuildCount(|m.payload|, fragmentation, mtu) + if fragmentation && m.payload == [] then 1 else 0
  {
    if fragmentation && m.payload != [] {
      FragmentBounds(|m.payload|, mtu, 0);
    }
  }

  // ---- Fragmenting and reassembling ---------------------------------------------

  lemma Adjoin(payload: Bytes, start: nat, end: nat)
    requires start <= end <= |payload|
    ensures payload[..start] + payload[start..end] == payload[..end]
  {
  }

  lemma {:induction false} FragmentsUpTo(m: Message, mtu: nat, k: nat)
    requires mtu > 0 && k <= CeilDiv(|m.payload|, mtu)
    ensures k * mtu <= |m.payload| + mtu
    ensures Payloads(FragmentFrames(m, mtu)[..k]) == m.payload[..Min(k * mtu, |m.payload|)]
  {
    var fs := FragmentFrames(m, mtu);
    if k == 0 {
      assert fs[..0] == [];
    } else {
      FragmentsUpTo(m, mtu, k - 1);
      FragmentBounds(|m.payload|, mtu, k - 1);
      assert fs[..k][..k - 1] == fs[..k - 1] && fs[..k][k - 1] == fs[k - 1];
      assert fs[k - 1].payload == m.payload[(k - 1) * mtu..Min(k * mtu, |m.payload|)];
      var start, end := (k - 1) * mtu, Min(k * mtu, |m.payload|);
      assert Min(start, |m.payload|) == start <= end;
      hide *;
      Adjoin(m.payload, start, end);
    }
  }

  lemma FragmentsSpell(m: Message, mtu: nat)
    requires mtu > 0 && CeilDiv(|m.payload|, mtu) > 1
    ensures |FragmentFrames(m, mtu)| > 1 && Payloads(FragmentFrames(m, mtu)) == m.payload
  {
    var fs := FragmentFrames(m, mtu);
    FragmentsUpTo(m, mtu, |fs|);
    FragmentBounds(|m.payload|, mtu, |fs| - 1);
    assert fs[..|fs|] == fs && Min(|fs| * mtu, |m.payload|) == |m.payload|;
  }

  /** One fragment of n. */
  predicate IsFragment(f: Frame, m: Message, mtu: nat, i: nat, n: nat) {
    && 0 < |f.payload| <= mtu && !f.header.mask && (f.header.fin <==> i == n - 1)
    && f.header.opcode == (if i == 0 then m.kind else CONTINUATION)
    && f.header.rsv == (if i == 0 then m.rsv else NO_RSV)
  }

  lemma FragmentIs(m: Message, mtu: nat, i: nat)
    requires mtu > 0 && i < |FragmentFrames(m, mtu)|
    ensures IsFragment(FragmentFrames(m, mtu)[i], m, mtu, i, |FragmentFrames(m, mtu)|)
  {
    FragmentBounds(|m.payload|, mtu, i);
  }

  lemma FragmentsAre(fs: seq<Frame>, m: Message, mtu: nat)
    requires |fs| > 1 && forall i :: 0 <= i < |fs| ==> IsFragment(fs[i], m, mtu, i, |fs|)
    ensures forall i :: 0 <= i < |fs| ==> 0 < |fs[i].payload| <= mtu && !fs[i].header.mask
    ensures forall i :: 0 <= i < |fs| ==> (fs[i].header.fin <==> i == |fs| - 1)
    ensures fs[0].header.opcode == m.kind && fs[0].header.rsv == m.rsv
    ensures forall i :: 0 < i < |fs| ==> fs[i].header.opcode == CONTINUATION && !fs[i].header.rsv.Any()
  {
  }

  /** What the fragments of a message look like: none is empty or longer than the limit, only the last
      is final, only the first carries kind and RSV bits, and together they spell the payload. */
  lemma FragmentShape(m: Message, mtu: nat)
    requires mtu > 0 && CeilDiv(|m.payload|, mtu) > 1
    ensures var fs := FragmentFrames(m, mtu);
            && (forall i :: 0 <= i < |fs| ==> 0 < |fs[i].payload| <= mtu && !fs[i].header.mask)
            && (forall i :: 0 <= i < |fs| ==> (fs[i].header.fin <==> i == |fs| - 1))
            && fs[0].header.opcode == m.kind && fs[0].header.rsv == m.rsv
            && (forall i :: 0 < i < |fs| ==> fs[i].header.opcode == CONTINUATION && !fs[i].header.rsv.Any())
            && Payloads(fs) == m.payload
  {
    hide *;
    FragmentsSpell(m, mtu);
    forall i | 0 <= i < |FragmentFrames(m, mtu)|
      ensures IsFragment(FragmentFrames(m, mtu)[i], m, mtu, i, |FragmentFrames(m, mtu)|)
    {
      FragmentIs(m, mtu, i);
    }
    FragmentsAre(FragmentFrames(m, mtu), m, mtu);
  }

  /** The payload length of the longest frame of a message. */
  function LongestFrame(length: nat, fragmentation: bool, mtu: nat): nat {
    if fragmentation then Min(mtu, length) else length
  }

  /** No frame is masked or longer than that, and the first is exactly as long. */
  lemma BuiltArePlain(m: Message, fragmentation: bool, mtu: nat, i: nat)
    requires (fragmentation ==> mtu > 0) && i < |BuildFrames(m, fragmentation, mtu)|
    ensures var fs := BuildFrames(m, fragmentation, mtu);
            var longest := LongestFrame(|m.payload|, fragmentation, mtu);
            fs[i].Plain() && |fs[i].payload| <= longest && |fs[0].payload| == longest
  {
    var length := |m.payload|;
    if BuildCount(length, fragmentation, mtu) > 1 {
      FragmentBounds(length, mtu, i);
      FragmentBounds(length, mtu, 0);
    } else if fragmentation && length > mtu {
      FragmentBounds(length, mtu, 0);
      assert false;
    }
  }

  /** The RSV bits that survive: a message sent in one frame loses them. */
  function SentRsv(m: Message, fragmentation: bool, mtu: nat): Rsv
    requires fragmentation ==> mtu > 0
  {
    if BuildCount(|m.payload|, fragmentation, mtu) > 1 then m.rsv else NO_RSV
  }

  /** Adding the built frames to a fresh message gives the message back, complete exactly at the last
      frame: every shorter non-empty run of them is accepted and leaves the message open. Only text that does
      not pass its check is refused, and only at the last frame. */
  lemma BuildThenReassemble(textOk: Bytes -> bool, m: Message, fragmentation: bool, mtu: nat)
    requires (fragmentation ==> mtu > 0) && m.kind != CONTINUATION
    ensures var fs := BuildFrames(m, fragmentation, mtu);
            && AddAll(textOk, fs)
               == (if m.kind == TEXT && !textOk(m.payload) then None
                   else Some(Message(m.kind, m.payload, SentRsv(m, fragmentation, mtu), true, |fs|)))
            && (forall k :: 0 < k < |fs| ==> AddAll(textOk, fs[..k]).Some? && !AddAll(textOk, fs[..k]).value.complete)
  {
    var fs := BuildFrames(m, fragmentation, mtu);
    if BuildCount(|m.payload|, fragmentation, mtu) > 1 {
      FragmentShape(m, mtu);
    } else {
      assert Payloads(fs) == m.payload;
    }
    AddAllOpen(textOk, fs);
    forall k | 0 < k < |fs|
      ensures AddAll(textOk, fs[..k]).Some? && !AddAll(textOk, fs[..k]).value.complete
    {
      AddAllOpen(textOk, fs[..k]);
      assert fs[..k][k - 1] == fs[k - 1] && fs[..k][0] == fs[0];
    }
  }
}

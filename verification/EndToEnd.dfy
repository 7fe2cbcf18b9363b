/** From `sendMessage` on one side to the message callbacks of the other: every layer at once. */
module EndToEnd {
  import opened ByteArrays
  import opened Frames
  import opened Messages
  import opened Extensions
  import opened FrameBuilding
  import opened MessageParsing
  import opened Protocol
  import opened ConnectionSafety
  import opened Utf8
  import opened Delivery

  // ---- What the calls must respect ------------------------------------------------------------

  /** The control frame the call may lead to fits the receiver's limit, and the frames of a message have a
      length that 64 bits can hold. */
  predicate CallFits(env: Env, call: Call) {
    match call
    case CloseConnection(_, reason) => 2 + |reason| <= env.max && 2 + |reason| < UINT64_SPAN
    case OnControlFrame(f) => |f.payload| <= env.max && |f.payload| < UINT64_SPAN
    case SendMessage(s) => FramesHold(env, s)
    case _ => true
  }

  ghost predicate ActionsFit(env: Env, actions: seq<Action>) {
    forall a | a in actions :: a.Begin? ==> CallFits(env, a.call)
  }

  /** The frame the loop thread is about to write. */
  function NextWrite(pc: LoopPc): seq<Frame> {
    if WritesClose(pc) || pc.WriteFrame? then [pc.frame] else []
  }

  ghost predicate ControlsFit(env: Env, fs: seq<Frame>) {
    forall f | f in fs && f.IsControl() :: Fits(env, f)
  }

  ghost predicate AllControlsFit(env: Env, c: Conn) {
    ControlsFit(env, c.out) && ControlsFit(env, NextWrite(c.loop))
  }

  lemma ControlsFitBegin(env: Env, c: Conn, call: Call)
    requires Enabled(c, Begin(call)) && CallFits(env, call) && AllControlsFit(env, c)
    requires c.tasks != [] ==> IsData(c.tasks[0])
    ensures AllControlsFit(env, AfterBegin(env.exts, c, call))
  {
    hide BuildFrames, BuildCount;
  }

  lemma ControlsFitLoop(env: Env, c: Conn)
    requires c.loop != Idle && AllControlsFit(env, c)
    ensures AllControlsFit(env, AfterLoop(c))
  {
    hide Fits;
    if NextWrite(c.loop) != [] {
      assert c.loop.frame in NextWrite(c.loop);
    }
  }

  lemma ControlsFitStep(env: Env, c: Conn, a: Action)
    requires Inv(env.exts, c) && Enabled(c, a) && (a.Begin? ==> CallFits(env, a.call)) && AllControlsFit(env, c)
    ensures AllControlsFit(env, Next(env.exts, c, a))
  {
    if c.tasks != [] {
      TaskIsData(env.exts, c);
    }
    match a
    case Begin(call) =>
      hide AllControlsFit, CallFits, AfterBegin, Inv;
      ControlsFitBegin(env, c, call);
    case LoopStep =>
      hide AllControlsFit, AfterLoop, Inv;
      ControlsFitLoop(env, c);
    case SenderStep =>
      hide ControlsFit, Inv;
  }

  /** If the close reasons given and the control frames received fit the limit, so does every control frame
      written. */
  lemma {:induction false} ControlsFitRun(env: Env, c: Conn, actions: seq<Action>)
    requires Inv(env.exts, c) && IsRun(env.exts, c, actions) && ActionsFit(env, actions)
    requires AllControlsFit(env, c)
    ensures ControlsFit(env, After(env.exts, c, actions).out)
    decreases |actions|
  {
    hide Inv, Next, Enabled, ControlsFit, NextWrite, CallFits;
    if actions == [] {
    } else {
      assert actions[0] in actions;
      ControlsFitStep(env, c, actions[0]);
      InvKept(env.exts, c, actions[0]);
      ControlsFitRun(env, Next(env.exts, c, actions[0]), actions[1..]);
    }
  }

  ghost predicate AllHold(env: Env, sents: seq<Sent>) {
    forall s | s in sents :: s.Valid() && FramesHold(env, s)
  }

  lemma {:induction false} AcceptedHold(env: Env, c: Conn, actions: seq<Action>)
    requires IsRun(env.exts, c, actions) && ActionsFit(env, actions) && AllHold(env, c.accepted)
    ensures AllHold(env, After(env.exts, c, actions).accepted)
    decreases |actions|
  {
    if actions == [] {
    } else {
      assert actions[0] in actions;
      assert AllHold(env, Next(env.exts, c, actions[0]).accepted);
      hide Next, Enabled, AllHold;
      AcceptedHold(env, Next(env.exts, c, actions[0]), actions[1..]);
    }
  }

  // ---- The first message that cannot be delivered -------------------------------------------------

  /** How many messages come before the first that cannot be delivered. */
  function GoodMessages(env: Env, sents: seq<Sent>): (n: nat)
    ensures n <= |sents|
    ensures forall i :: 0 <= i < n ==> Deliverable(env, sents[i])
    ensures n < |sents| ==> !Deliverable(env, sents[n])
  {
    if sents == [] || !Deliverable(env, sents[0]) then 0 else 1 + GoodMessages(env, sents[1..])
  }

  /** The frame at which a message that cannot be delivered is refused: the first if it names no kind or is too
      long, the last if the text check or an extension fails. */
  function RefusedAt(env: Env, s: Sent): nat
    requires s.Frames(env.exts) != []
  {
    if s.kind == CONTINUATION || !ShortFrames(env, s) then 0 else |s.Frames(env.exts)| - 1
  }

  lemma ValidHasFrames(env: Env, s: Sent)
    requires s.Valid()
    ensures s.Frames(env.exts) != []
  {
    BuiltIsNotEmpty(s.Message(env.exts), s.fragmentation, s.mtu);
  }

  /** How many of the data frames the receiver takes. */
  function FramesTaken(env: Env, sents: seq<Sent>): nat
    requires forall s | s in sents :: s.Valid()
  {
    var n := GoodMessages(env, sents);
    |AllFrames(env.exts, sents[..n])|
    + if n < |sents| then
        ValidHasFrames(env, sents[n]);
        RefusedAt(env, sents[n])
      else 0
  }

  /** The frame itself is longer than the limit, or taking it is refused. */
  ghost predicate IsRefused(env: Env, m: Message, f: Frame) {
    f.Plain() && (env.max < |f.payload| < UINT64_SPAN || (Fits(env, f) && Take(env, m, f).Refused?))
  }

  lemma FirstNamesKind(m: Message, fragmentation: bool, mtu: nat)
    requires fragmentation ==> mtu > 0
    ensures var fs := BuildFrames(m, fragmentation, mtu); fs != [] && fs[0].header.opcode == m.kind
  {
    if BuildCount(|m.payload|, fragmentation, mtu) > 1 {
      FragmentShape(m, mtu);
    }
  }

  lemma RefusedFirst(env: Env, s: Sent)
    requires s.Valid() && FramesHold(env, s) && s.Frames(env.exts) != []
    requires s.kind == CONTINUATION || !ShortFrames(env, s)
    ensures IsRefused(env, FRESH, s.Frames(env.exts)[0])
  {
    var m := s.Message(env.exts);
    var f := s.Frames(env.exts)[0];
    BuiltArePlain(m, s.fragmentation, s.mtu, 0);
    if ShortFrames(env, s) {
      FramesFitIff(env, s);
      assert f in s.Frames(env.exts);
      assert f.header.opcode == CONTINUATION by {
        FirstNamesKind(m, s.fragmentation, s.mtu);
      }
      hide BuildFrames;
    }
  }

  /** The last frame of a message whose text check fails, or which cannot be decoded, is refused. */
  lemma LastIsRefused(env: Env, s: Sent)
    requires s.Valid() && s.kind != CONTINUATION && !Deliverable(env, s) && ShortFrames(env, s)
    requires s.Frames(env.exts) != [] && !s.Frames(env.exts)[|s.Frames(env.exts)| - 1].IsControl()
    requires var fs := s.Frames(env.exts);
             && AddAll(env.textOk, fs[..|fs| - 1]).Some?
             && AddAll(env.textOk, fs)
                == if s.kind == TEXT && !env.textOk(s.Message(env.exts).payload) then None
                   else Some(Message(s.kind, s.Message(env.exts).payload, SentFlags(env.exts, s), true, |fs|))
    ensures var fs := s.Frames(env.exts);
            Take(env, AddAll(env.textOk, fs[..|fs| - 1]).value, fs[|fs| - 1]).Refused?
  {
    FramesFitIff(env, s);
    hide AfterFrame, BuildFrames, Fits, ShortFrames;
  }

  lemma RefusedLast(env: Env, before: seq<Frame>, s: Sent, j: nat)
    requires s.Valid() && s.kind != CONTINUATION && !Deliverable(env, s) && ShortFrames(env, s)
    requires TakeAll(env, before).Taken? && TakeAll(env, before).message == FRESH
    requires j < |s.Frames(env.exts)|
    ensures var fs := s.Frames(env.exts);
            var t := TakeAll(env, before + fs[..j]);
            && t.Taken? && t.events == TakeAll(env, before).events
            && (j == |fs| - 1 ==> IsRefused(env, t.message, fs[j]))
  {
    var fs := s.Frames(env.exts);
    var n := |fs|;
    FramesFitIff(env, s);
    assert fs[n - 1] in fs && Fits(env, fs[n - 1]);
    BuildThenReassemble(env.textOk, s.Message(env.exts), s.fragmentation, s.mtu);
    SentFramesAreData(env.exts, s);
    hide BuildFrames, TakeAll, BuildCount, AfterFrame, AddAll, Deliverable, Take;
    forall k | 0 < k <= j
      ensures fs[..j][..k] == fs[..k]
    {
    }
    TakeOpen(env, before, fs[..j]);
    if j == n - 1 {
      LastIsRefused(env, s);
    }
  }

  /** A message that cannot be delivered: the frames before the refused one are taken and deliver nothing. */
  lemma UndeliverableTaken(env: Env, before: seq<Frame>, s: Sent, j: nat)
    requires s.Valid() && FramesHold(env, s) && !Deliverable(env, s) && s.Frames(env.exts) != []
    requires TakeAll(env, before).Taken? && TakeAll(env, before).message == FRESH
    requires j <= RefusedAt(env, s)
    ensures var t := TakeAll(env, before + s.Frames(env.exts)[..j]);
            && t.Taken? && t.events == TakeAll(env, before).events
            && (j == RefusedAt(env, s) ==> IsRefused(env, t.message, s.Frames(env.exts)[j]))
  {
    var fs := s.Frames(env.exts);
    BuiltArePlain(s.Message(env.exts), s.fragmentation, s.mtu, RefusedAt(env, s));
    if s.kind == CONTINUATION || !ShortFrames(env, s) {
      assert before + fs[..0] == before;
      RefusedFirst(env, s);
    } else {
      RefusedLast(env, before, s, j);
    }
  }

  // ---- A sequence of messages with one that cannot be delivered -------------------------------------

  lemma SplitAround<T>(s: seq<T>, n: nat)
    requires n < |s|
    ensures s == s[..n] + ([s[n]] + s[n + 1..])
  {
  }

  /** The frames of the good messages, then those of the one that cannot be delivered, then the others'. */
  lemma FramesAround(exts: seq<Extension>, sents: seq<Sent>, n: nat)
    requires n < |sents|
    ensures AllFrames(exts, sents)
         == AllFrames(exts, sents[..n]) + (sents[n].Frames(exts) + AllFrames(exts, sents[n + 1..]))
  {
    hide *;
    SplitAround(sents, n);
    AllFramesConcat(exts, sents[..n], [sents[n]] + sents[n + 1..]);
    AllFramesConcat(exts, [sents[n]], sents[n + 1..]);
    OneMessagesFrames(exts, sents[n]);
  }

  /** What the data frames taken deliver: the good messages whole in them. */
  ghost predicate GoodDelivered(env: Env, sents: seq<Sent>, d: seq<Frame>) {
    var good := sents[..GoodMessages(env, sents)];
    var t := TakeAll(env, d);
    && t.Taken?
    && MessagesOf(t.events) == Receipts(env, good[..WholeMessages(env.exts, good, |d|)])
    && (forall f | f in d :: Fits(env, f))
  }

  lemma {:induction false} GoodFramesFit(env: Env, sents: seq<Sent>)
    requires forall s | s in sents :: Deliverable(env, s)
    ensures forall f | f in AllFrames(env.exts, sents) :: Fits(env, f)
    decreases |sents|
  {
    hide BuildFrames, BuildCount;
    if sents == [] {
    } else {
      var front, s := sents[..|sents| - 1], sents[|sents| - 1];
      assert s in sents;
      GoodFramesFit(env, front);
    }
  }

  lemma FramesTakenIs(env: Env, sents: seq<Sent>)
    requires AllHold(env, sents)
    ensures var n := GoodMessages(env, sents);
            var a := AllFrames(env.exts, sents[..n]);
            if n == |sents| then sents[..n] == sents && FramesTaken(env, sents) == |a|
            else
              && sents[n].Frames(env.exts) != []
              && RefusedAt(env, sents[n]) < |sents[n].Frames(env.exts)|
              && FramesTaken(env, sents) == |a| + RefusedAt(env, sents[n])
  {
    var n := GoodMessages(env, sents);
    hide AllFrames, Sent.Frames, Deliverable, ShortFrames, FramesHold;
    if n < |sents| {
      ValidHasFrames(env, sents[n]);
    } else {
      assert sents[..n] == sents;
    }
  }

  /** No more than the frames of the good messages. */
  lemma AmongGood(env: Env, sents: seq<Sent>, d: seq<Frame>)
    requires d <= AllFrames(env.exts, sents[..GoodMessages(env, sents)])
    ensures GoodDelivered(env, sents, d)
  {
    var good := sents[..GoodMessages(env, sents)];
    hide Deliverable, TakeAll, AllFrames, BuildFrames, MessagesOf, Receipts, WholeMessages, GoodMessages, Fits;
    GoodFramesFit(env, good);
    PrefixDelivers(env, good, d);
    forall f | f in d ensures Fits(env, f) {
      assert f in AllFrames(env.exts, good);
    }
  }

  lemma WholeMeansAll(exts: seq<Extension>, sents: seq<Sent>, n: nat)
    ensures WholeMessages(exts, sents, n) == |sents| <==> n >= |AllFrames(exts, sents)|
  {
  }

  /** Some way into the message that cannot be delivered. */
  lemma IntoRefused(env: Env, good: seq<Sent>, s: Sent, j: nat)
    requires forall s | s in good :: Deliverable(env, s)
    requires s.Valid() && FramesHold(env, s) && !Deliverable(env, s) && s.Frames(env.exts) != []
    requires j <= RefusedAt(env, s)
    ensures var a := AllFrames(env.exts, good);
            var d := a + s.Frames(env.exts)[..j];
            var t := TakeAll(env, d);
            && t.Taken? && MessagesOf(t.events) == Receipts(env, good[..WholeMessages(env.exts, good, |d|)])
            && (forall f | f in d :: Fits(env, f))
            && (j == RefusedAt(env, s) ==> IsRefused(env, t.message, s.Frames(env.exts)[j]))
  {
    hide Deliverable, TakeAll, BuildFrames, MessagesOf, Receipt, IsRefused;
    var a, fs := AllFrames(env.exts, good), s.Frames(env.exts);
    GoodFramesFit(env, good);
    PrefixDelivers(env, good, a);
    UndeliverableTaken(env, a, s, j);
    WholeMeansAll(env.exts, good, |a|);
    WholeMeansAll(env.exts, good, |a| + j);
    if ShortFrames(env, s) {
      FramesFitIff(env, s);
    }
    hide AllFrames, WholeMessages, Fits;
    forall f | f in a + fs[..j] ensures Fits(env, f) {
      if f !in a {
        assert f in fs[..j] && f in fs;
      }
    }
  }

  /** Into the frames of the message that cannot be delivered. */
  lemma BeyondGood(env: Env, sents: seq<Sent>, j: nat)
    requires AllHold(env, sents) && GoodMessages(env, sents) < |sents|
    requires var s := sents[GoodMessages(env, sents)];
             s.Frames(env.exts) != [] && j <= RefusedAt(env, s)
    ensures var n := GoodMessages(env, sents);
            GoodDelivered(env, sents, AllFrames(env.exts, sents[..n]) + sents[n].Frames(env.exts)[..j])
  {
    var n := GoodMessages(env, sents);
    hide Deliverable, TakeAll, AllFrames, BuildFrames, MessagesOf, Receipts, WholeMessages, Fits, FramesHold;
    IntoRefused(env, sents[..n], sents[n], j);
  }

  lemma PrefixOfThree(d: seq<Frame>, a: seq<Frame>, fs: seq<Frame>, later: seq<Frame>)
    requires d <= a + (fs + later) && |d| <= |a| + |fs|
    ensures if |d| < |a| then d <= a else d == a + fs[..|d| - |a|]
  {
    PrefixOfTwo(d, a, fs + later);
  }

  /** The frames up to the refused one are taken. */
  lemma GoodTaken(env: Env, sents: seq<Sent>, d: seq<Frame>)
    requires AllHold(env, sents) && d <= AllFrames(env.exts, sents) && |d| <= FramesTaken(env, sents)
    ensures GoodDelivered(env, sents, d)
  {
    hide *;
    var n := GoodMessages(env, sents);
    var a := AllFrames(env.exts, sents[..n]);
    FramesTakenIs(env, sents);
    if n == |sents| {
      AmongGood(env, sents, d);
    } else {
      FramesAround(env.exts, sents, n);
      var fs := sents[n].Frames(env.exts);
      PrefixOfThree(d, a, fs, AllFrames(env.exts, sents[n + 1..]));
      if |d| < |a| {
        AmongGood(env, sents, d);
      } else {
        BeyondGood(env, sents, |d| - |a|);
      }
    }
  }

  // ---- A stream with a frame that is refused --------------------------------------------------------

  /** The frame is refused: nothing that follows it in the stream is an event. */
  lemma ScanRefused(env: Env, m: Message, f: Frame, rest: Bytes)
    requires IsRefused(env, m, f)
    ensures Scan(env, m, Encode(f) + rest).events == [] && !Scan(env, m, Encode(f) + rest).status.Alive?
  {
    hide Take, Decode, Encode;
    if env.max < |f.payload| {
      LongFrameRefused(env.max, f, rest);
    } else {
      assert OnWire(f) == f;
      RoundTrip(env.max, f, rest);
    }
  }

  /** The bytes of frames of which one is refused give the events of those before it and leave the stream bad. */
  lemma ScanUpToRefused(env: Env, a: seq<Frame>, f: Frame, b: seq<Frame>)
    requires (forall g | g in a :: Fits(env, g)) && TakeAll(env, a).Taken?
    requires IsRefused(env, TakeAll(env, a).message, f)
    ensures var r := Scan(env, FRESH, EncodeAll(a + [f] + b));
            r.events == TakeAll(env, a).events && !r.status.Alive?
  {
    hide Scan, TakeAll, Fits, IsRefused, Encode;
    ScanPlainFrames(env, a);
    EncodeAllConcat(a + [f], b);
    EncodeAllConcat(a, [f]);
    EncodeAllOne(f);
    var rest := Encode(f) + EncodeAll(b);
    ConcatAssoc(EncodeAll(a), Encode(f), EncodeAll(b));
    ScanResumes(env, FRESH, EncodeAll(a), rest);
    assert [] + rest == rest;
    ScanRefused(env, TakeAll(env, a).message, f, EncodeAll(b));
    assert TakeAll(env, a).events + [] == TakeAll(env, a).events;
  }

  /** Where the n-th data frame stands among the frames written. */
  lemma {:induction false} DataFrameAt(fs: seq<Frame>, n: nat) returns (a: seq<Frame>, b: seq<Frame>)
    requires n < |DataOf(fs)|
    ensures fs == a + [DataOf(fs)[n]] + b && DataOf(a) == DataOf(fs)[..n] && !DataOf(fs)[n].IsControl()
    decreases |fs|
  {
    var front, last := fs[..|fs| - 1], fs[|fs| - 1];
    if n < |DataOf(front)| {
      var x, y := DataFrameAt(front, n);
      a, b := x, y + [last];
      assert DataOf(fs)[n] == DataOf(front)[n] && DataOf(fs)[..n] == DataOf(front)[..n];
      assert fs == front + [last];
      ConcatAssoc(x + [DataOf(front)[n]], y, [last]);
    } else {
      a, b := front, [];
      assert DataOf(fs)[..n] == DataOf(front);
      assert fs == front + [last] + [];
    }
  }

  lemma {:induction false} DataIsKept(fs: seq<Frame>, f: Frame)
    requires f in fs && !f.IsControl()
    ensures f in DataOf(fs)
    decreases |fs|
  {
    if f == fs[|fs| - 1] {
    } else {
      assert f in fs[..|fs| - 1];
      DataIsKept(fs[..|fs| - 1], f);
    }
  }

  lemma WrittenFits(env: Env, fs: seq<Frame>)
    requires ControlsFit(env, fs) && forall f | f in DataOf(fs) :: Fits(env, f)
    ensures forall f | f in fs :: Fits(env, f)
  {
    hide Fits;
    forall f | f in fs ensures Fits(env, f) {
      if !f.IsControl() {
        DataIsKept(fs, f);
      }
    }
  }

  // ---- The whole way -----------------------------------------------------------------------------

  /** What a receiver makes of all the bytes written: the good messages whole in the data frames written, and a
      stream that is bad exactly if the refused frame is among them. */
  ghost predicate ReadsAs(env: Env, c: Conn, r: Scanned)
    requires forall s | s in c.accepted :: s.Valid()
  {
    var good := c.accepted[..GoodMessages(env, c.accepted)];
    var written := |DataOf(c.out)|;
    && MessagesOf(r.events) == Receipts(env, good[..WholeMessages(env.exts, good, written)])
    && (r.status.Alive? <==> good == c.accepted || written <= FramesTaken(env, c.accepted))
    && (r.status.Alive? ==> r.status.rest == [])
  }

  lemma TakenIsRead(env: Env, c: Conn)
    requires AllHold(env, c.accepted) && ControlsFit(env, c.out)
    requires DataOf(c.out) <= AllFrames(env.exts, c.accepted) && |DataOf(c.out)| <= FramesTaken(env, c.accepted)
    ensures ReadsAs(env, c, Scan(env, FRESH, EncodeAll(c.out)))
  {
    hide Deliverable, TakeAll, Scan, AllFrames, DataOf, Fits, ControlsFit, FramesTaken, Receipts, MessagesOf;
    GoodTaken(env, c.accepted, DataOf(c.out));
    ControlFramesAside(env, c.out);
    WrittenFits(env, c.out);
    ScanPlainFrames(env, c.out);
  }

  /** The frames before the refused one. */
  lemma AtRefused(env: Env, sents: seq<Sent>)
    requires AllHold(env, sents) && GoodMessages(env, sents) < |sents|
    requires sents[GoodMessages(env, sents)].Frames(env.exts) != []
    requires var s := sents[GoodMessages(env, sents)];
             RefusedAt(env, s) < |s.Frames(env.exts)|
    ensures var n := GoodMessages(env, sents);
            var good, s := sents[..n], sents[n];
            var k := RefusedAt(env, s);
            var d := AllFrames(env.exts, good) + s.Frames(env.exts)[..k];
            var t := TakeAll(env, d);
            && t.Taken? && (forall f | f in d :: Fits(env, f))
            && MessagesOf(t.events) == Receipts(env, good[..WholeMessages(env.exts, good, |d|)])
            && IsRefused(env, t.message, s.Frames(env.exts)[k])
  {
    var n := GoodMessages(env, sents);
    hide Deliverable, TakeAll, AllFrames, BuildFrames, MessagesOf, Receipts, WholeMessages, Fits, FramesHold, IsRefused;
    IntoRefused(env, sents[..n], sents[n], RefusedAt(env, sents[n]));
  }

  lemma PrefixAt(d: seq<Frame>, a: seq<Frame>, fs: seq<Frame>, later: seq<Frame>, k: nat)
    requires d <= a + (fs + later) && k < |fs| && |d| > |a| + k
    ensures d[..|a| + k] == a + fs[..k] && d[|a| + k] == fs[k]
  {
    var whole := a + (fs + later);
    assert d[|a| + k] == whole[|a| + k] == fs[k];
    assert whole[..|a| + k] == a + fs[..k];
    assert d[..|a| + k] == whole[..|a| + k];
  }

  /** More than the frames taken: the frame after those is the refused one. */
  lemma RefusedFrameIs(env: Env, sents: seq<Sent>, d: seq<Frame>)
    requires AllHold(env, sents) && d <= AllFrames(env.exts, sents) && |d| > FramesTaken(env, sents)
    ensures var n := GoodMessages(env, sents);
            && n < |sents| && sents[n].Frames(env.exts) != []
            && var a, fs := AllFrames(env.exts, sents[..n]), sents[n].Frames(env.exts);
               var k := RefusedAt(env, sents[n]);
               && FramesTaken(env, sents) == |a| + k && k < |fs|
               && d[..|a| + k] == a + fs[..k] && d[|a| + k] == fs[k]
  {
    var n := GoodMessages(env, sents);
    hide *;
    FramesTakenIs(env, sents);
    assert n < |sents|;
    FramesAround(env.exts, sents, n);
    var a, fs := AllFrames(env.exts, sents[..n]), sents[n].Frames(env.exts);
    PrefixAt(d, a, fs, AllFrames(env.exts, sents[n + 1..]), RefusedAt(env, sents[n]));
  }

  lemma ControlsFitWithin(env: Env, fs: seq<Frame>, a: seq<Frame>)
    requires ControlsFit(env, fs) && a <= fs
    ensures ControlsFit(env, a)
  {
    hide Fits;
    forall f | f in a && f.IsControl() ensures Fits(env, f) {
      assert f in fs;
    }
  }

  /** Frames taken, then the refused one, with control frames in between. */
  lemma RefusedAmongWritten(env: Env, out: seq<Frame>, d: seq<Frame>, f: Frame)
    requires ControlsFit(env, out) && |d| < |DataOf(out)|
    requires d == DataOf(out)[..|d|] && f == DataOf(out)[|d|]
    requires TakeAll(env, d).Taken? && (forall g | g in d :: Fits(env, g))
    requires IsRefused(env, TakeAll(env, d).message, f)
    ensures var r := Scan(env, FRESH, EncodeAll(out));
            MessagesOf(r.events) == MessagesOf(TakeAll(env, d).events) && !r.status.Alive?
  {
    var a, b := DataFrameAt(out, |d|);
    hide TakeAll, Scan, DataOf, Fits, ControlsFit, IsRefused, EncodeAll, MessagesOf;
    ControlFramesAside(env, a);
    ControlsFitWithin(env, out, a);
    WrittenFits(env, a);
    ScanUpToRefused(env, a, f, b);
  }

  lemma RefusedReadsAs(env: Env, c: Conn, r: Scanned)
    requires AllHold(env, c.accepted) && GoodMessages(env, c.accepted) < |c.accepted|
    requires |DataOf(c.out)| > FramesTaken(env, c.accepted) && !r.status.Alive?
    requires var good := c.accepted[..GoodMessages(env, c.accepted)];
             MessagesOf(r.events) == Receipts(env, good[..WholeMessages(env.exts, good, FramesTaken(env, c.accepted))])
    ensures ReadsAs(env, c, r)
  {
    var good := c.accepted[..GoodMessages(env, c.accepted)];
    FramesTakenIs(env, c.accepted);
    WholeMeansAll(env.exts, good, FramesTaken(env, c.accepted));
    WholeMeansAll(env.exts, good, |DataOf(c.out)|);
    hide WholeMessages, AllFrames, DataOf, Deliverable, Sent.Frames, FramesTaken, MessagesOf, Receipts;
  }

  lemma RefusedIsRead(env: Env, c: Conn)
    requires AllHold(env, c.accepted) && ControlsFit(env, c.out)
    requires DataOf(c.out) <= AllFrames(env.exts, c.accepted) && |DataOf(c.out)| > FramesTaken(env, c.accepted)
    ensures ReadsAs(env, c, Scan(env, FRESH, EncodeAll(c.out)))
  {
    hide *;
    RefusedFrameIs(env, c.accepted, DataOf(c.out));
    var n := GoodMessages(env, c.accepted);
    var k := RefusedAt(env, c.accepted[n]);
    AtRefused(env, c.accepted);
    var d := AllFrames(env.exts, c.accepted[..n]) + c.accepted[n].Frames(env.exts)[..k];
    RefusedAmongWritten(env, c.out, d, c.accepted[n].Frames(env.exts)[k]);
    RefusedReadsAs(env, c, Scan(env, FRESH, EncodeAll(c.out)));
  }

  /** In every run of both threads, whatever was accepted and whatever Pong and Close frames are in between: a
      fresh message parser fed all the bytes written gives exactly the receipts of the messages that come
      before the first undeliverable one and whose frames have all been written. It reports an error if and
      only if the frame at which that message is refused has been written, and is never left with half a
      frame. */
  lemma EndToEnd(env: Env, actions: seq<Action>)
    requires IsRun(env.exts, OPENED, actions) && ActionsFit(env, actions)
    ensures var c := After(env.exts, OPENED, actions);
            && AllHold(env, c.accepted)
            && ReadsAs(env, c, Scan(env, FRESH, EncodeAll(c.out)))
  {
    var c := After(env.exts, OPENED, actions);
    FramesConserved(env.exts, actions);
    Started(env.exts);
    ControlsFitRun(env, OPENED, actions);
    AcceptedHold(env, OPENED, actions);
    hide *;
    if |DataOf(c.out)| <= FramesTaken(env, c.accepted) {
      TakenIsRead(env, c);
    } else {
      RefusedIsRead(env, c);
    }
  }

  lemma CutShort(env: Env, bytes: Bytes, n: nat)
    requires n <= |bytes|
    ensures MessagesOf(Scan(env, FRESH, bytes[..n]).events) <= MessagesOf(Scan(env, FRESH, bytes).events)
  {
    hide Scan, Resume;
    ScanResumes(env, FRESH, bytes[..n], bytes[n..]);
    assert bytes == bytes[..n] + bytes[n..];
    var first := Scan(env, FRESH, bytes[..n]);
    MessagesOfConcat(first.events, Resume(env, first.status, bytes[n..]).events);
  }

  lemma ReceiptsPrefix(env: Env, sents: seq<Sent>, k: nat)
    requires k <= |sents|
    ensures Receipts(env, sents[..k]) <= Receipts(env, sents)
  {
    hide Receipt;
  }

  lemma ReceiptsOf(env: Env, sents: seq<Sent>, n: nat, k: nat)
    requires k <= n <= |sents|
    ensures |Receipts(env, sents[..n][..k])| == k
    ensures forall i | 0 <= i < k :: Receipts(env, sents[..n][..k])[i] == Receipt(env, sents[i])
  {
    hide Receipt;
  }

  /** Cutting the byte stream short, as a slow or broken network does, only cuts the messages short. */
  lemma EndToEndPrefix(env: Env, actions: seq<Action>, n: nat)
    requires IsRun(env.exts, OPENED, actions) && ActionsFit(env, actions)
    requires n <= |EncodeAll(After(env.exts, OPENED, actions).out)|
    ensures var c := After(env.exts, OPENED, actions);
            MessagesOf(Scan(env, FRESH, EncodeAll(c.out)[..n]).events)
            <= Receipts(env, c.accepted[..GoodMessages(env, c.accepted)])
  {
    EndToEnd(env, actions);
    var c := After(env.exts, OPENED, actions);
    var good := c.accepted[..GoodMessages(env, c.accepted)];
    hide IsRun, ActionsFit, After, EncodeAll, Scan, MessagesOf, Receipts, WholeMessages, GoodMessages, AllHold;
    CutShort(env, EncodeAll(c.out), n);
    ReceiptsPrefix(env, good, WholeMessages(env.exts, good, |DataOf(c.out)|));
  }

  /** All the messages are received if and only if all are deliverable and all their frames are written. */
  lemma AllReceivedIff(env: Env, c: Conn, r: Scanned)
    requires (forall s | s in c.accepted :: s.Valid()) && ReadsAs(env, c, r)
    ensures MessagesOf(r.events) == Receipts(env, c.accepted) <==>
              && GoodMessages(env, c.accepted) == |c.accepted|
              && |DataOf(c.out)| >= |AllFrames(env.exts, c.accepted)|
  {
    hide MessagesOf, AllFrames, DataOf, Receipt, FramesTaken, WholeMessages;
    var good := c.accepted[..GoodMessages(env, c.accepted)];
    WholeMeansAll(env.exts, good, |DataOf(c.out)|);
    var k := WholeMessages(env.exts, good, |DataOf(c.out)|);
    assert |Receipts(env, good[..k])| == k;
    assert c.accepted[..|c.accepted|] == c.accepted;
  }

  lemma AllGoodIff(env: Env, sents: seq<Sent>)
    ensures GoodMessages(env, sents) == |sents| <==> forall s | s in sents :: Deliverable(env, s)
  {
    hide Deliverable;
    var n := GoodMessages(env, sents);
    if n < |sents| {
      assert sents[n] in sents;
    }
  }

  /** On a quiet connection the receiver has every accepted message if and only if all are deliverable and none
      was an empty one sent with fragmentation. */
  lemma QuietDeliversAllIff(env: Env, actions: seq<Action>)
    requires IsRun(env.exts, OPENED, actions) && ActionsFit(env, actions)
    requires Quiet(After(env.exts, OPENED, actions))
    ensures var c := After(env.exts, OPENED, actions);
            MessagesOf(Scan(env, FRESH, EncodeAll(c.out)).events) == Receipts(env, c.accepted) <==>
              forall s | s in c.accepted ::
                Deliverable(env, s) && !(s.fragmentation && s.Message(env.exts).payload == [])
  {
    EndToEnd(env, actions);
    QuietMeansWrittenIff(env.exts, actions);
    FramesConserved(env.exts, actions);
    var c := After(env.exts, OPENED, actions);
    hide IsRun, After, Scan, Deliverable, EncodeAll, Receipt, BuildFrames, ReadsAs, AllFrames, GoodMessages, DataOf;
    AllReceivedIff(env, c, Scan(env, FRESH, EncodeAll(c.out)));
    AllGoodIff(env, c.accepted);
  }

  /** An example: a message of type UNKNOWN, which is 0, is accepted for sending, and its one frame leaves the
      receiver's stream bad. */
  lemma NoKindIsRefused(env: Env)
    requires env.exts == []
    ensures var s := Sent([7], CONTINUATION, false, 0);
            && s.Valid() && FramesHold(env, s)
            && Scan(env, FRESH, EncodeAll(s.Frames(env.exts))).events == []
            && !Scan(env, FRESH, EncodeAll(s.Frames(env.exts))).status.Alive?
  {
    var s := Sent([7], CONTINUATION, false, 0);
    var fs := s.Frames(env.exts);
    assert |s.Message(env.exts).payload| == 1 && |fs| == 1;
    RefusedFirst(env, s);
    hide BuildFrames, IsRefused, Scan, Encode;
    assert fs == [fs[0]];
    EncodeAllOne(fs[0]);
    ScanRefused(env, FRESH, fs[0], []);
    assert Encode(fs[0]) + [] == Encode(fs[0]);
  }

  // ---- What the receiver's application sees ---------------------------------------------------------

  /** Without extensions the receiver sees the type and bytes that were sent. */
  lemma PlainReceipt(env: Env, s: Sent)
    requires env.exts == [] && Deliverable(env, s)
    ensures Receipt(env, s).kind == s.kind && Receipt(env, s).payload == s.bytes
  {
  }

  /** Binary, or text in ASCII, with frames within the receiver's limit. */
  predicate PlainMessage(env: Env, s: Sent) {
    s.Valid() && (s.kind == BINARY || (s.kind == TEXT && IsAscii(s.bytes))) && ShortFrames(env, s)
  }

  /** Such messages can always be delivered, whatever the text check makes of bytes behind a payload. */
  lemma PlainIsDeliverable(env: Env, s: Sent)
    requires env.exts == [] && Faithful(env.textOk) && PlainMessage(env, s)
    ensures Deliverable(env, s)
  {
    FramesFitIff(env, s);
    if s.kind == TEXT {
      AsciiPasses(env.textOk, s.bytes);
    }
    hide Faithful, BuildFrames, IsAscii, ShortFrames;
  }

  /** Without extensions, with binary and ASCII text messages only: in every run of both threads, the
      messages read from the bytes written are a prefix of the messages accepted, in order, each with the
      type and the bytes it was sent with. */
  lemma PlainEndToEnd(env: Env, actions: seq<Action>)
    requires env.exts == [] && Faithful(env.textOk) && IsRun(env.exts, OPENED, actions)
    requires forall s | s in After(env.exts, OPENED, actions).accepted :: PlainMessage(env, s)
    requires ActionsFit(env, actions)
    ensures var c := After(env.exts, OPENED, actions);
            var r := Scan(env, FRESH, EncodeAll(c.out));
            var ms := MessagesOf(r.events);
            && r.status.Alive?
            && |ms| == WholeMessages(env.exts, c.accepted, |DataOf(c.out)|)
            && forall i | 0 <= i < |ms| :: ms[i].kind == c.accepted[i].kind && ms[i].payload == c.accepted[i].bytes
  {
    var c := After(env.exts, OPENED, actions);
    var ms := MessagesOf(Scan(env, FRESH, EncodeAll(c.out)).events);
    EndToEnd(env, actions);
    AllGoodIff(env, c.accepted);
    hide After, IsRun, Faithful, Deliverable, PlainMessage, Scan, EncodeAll, MessagesOf, Receipts, ActionsFit;
    hide GoodMessages, FramesTaken, WholeMessages, DataOf, AllHold, Receipt;
    forall s | s in c.accepted ensures Deliverable(env, s) {
      PlainIsDeliverable(env, s);
    }
    assert c.accepted[..|c.accepted|] == c.accepted;
    ReceiptsOf(env, c.accepted, |c.accepted|, WholeMessages(env.exts, c.accepted, |DataOf(c.out)|));
    forall i | 0 <= i < |ms|
      ensures ms[i].kind == c.accepted[i].kind && ms[i].payload == c.accepted[i].bytes
    {
      PlainReceipt(env, c.accepted[i]);
    }
  }

  ghost predicate AllInvert(exts: seq<Extension>) {
    forall k :: 0 <= k < |exts| ==> Inverts(exts[k])
  }

  /** Extensions that invert can always decode what arrives. */
  lemma InvertingIsDeliverable(env: Env, s: Sent)
    requires AllInvert(env.exts) && Carried(env, s)
    ensures Deliverable(env, s)
  {
    PipelineInverts(env.exts, s.bytes, s.kind);
  }

  /** The receiver sees the bytes that were sent: the message took two or more frames, or encoding left it
      unchanged. */
  predicate Survives(exts: seq<Extension>, s: Sent) {
    s.Permits(exts) > 1 || s.Message(exts).payload == s.bytes
  }

  /** With extensions that invert, the receiver sees the bytes that were sent if and only if the message took
      two or more frames or encoding left it unchanged: a single frame loses the RSV bits. */
  lemma ExtendedReceiptIff(env: Env, s: Sent)
    requires AllInvert(env.exts) && Carried(env, s)
    ensures Receipt(env, s).kind == s.kind
    ensures Receipt(env, s).payload == s.bytes <==> Survives(env.exts, s)
  {
    PipelineInverts(env.exts, s.bytes, s.kind);
  }

  /** With extensions that invert: in every run of both threads, the messages read from the bytes written are
      those accepted before the first whose frames do not carry it and whole in the frames written, in order,
      each with its type, and with its bytes exactly if it took two or more frames or encoding left it
      unchanged. */
  lemma ExtendedEndToEnd(env: Env, actions: seq<Action>)
    requires AllInvert(env.exts) && IsRun(env.exts, OPENED, actions) && ActionsFit(env, actions)
    ensures var c := After(env.exts, OPENED, actions);
            var n := GoodMessages(env, c.accepted);
            var ms := MessagesOf(Scan(env, FRESH, EncodeAll(c.out)).events);
            && (n < |c.accepted| ==> !Carried(env, c.accepted[n]))
            && |ms| == WholeMessages(env.exts, c.accepted[..n], |DataOf(c.out)|)
            && forall i | 0 <= i < |ms| ::
                 && ms[i].kind == c.accepted[i].kind
                 && (ms[i].payload == c.accepted[i].bytes <==> Survives(env.exts, c.accepted[i]))
  {
    var c := After(env.exts, OPENED, actions);
    var n := GoodMessages(env, c.accepted);
    var ms := MessagesOf(Scan(env, FRESH, EncodeAll(c.out)).events);
    EndToEnd(env, actions);
    hide After, IsRun, AllInvert, Carried, Survives, Scan, EncodeAll, MessagesOf, Receipts, ActionsFit;
    hide GoodMessages, FramesTaken, WholeMessages, DataOf, AllHold, Receipt, Arriving;
    if n < |c.accepted| && Carried(env, c.accepted[n]) {
      InvertingIsDeliverable(env, c.accepted[n]);
    }
    ReceiptsOf(env, c.accepted, n, WholeMessages(env.exts, c.accepted[..n], |DataOf(c.out)|));
    forall i | 0 <= i < |ms|
      ensures ms[i].kind == c.accepted[i].kind
      ensures ms[i].payload == c.accepted[i].bytes <==> Survives(env.exts, c.accepted[i])
    {
      ExtendedReceiptIff(env, c.accepted[i]);
    }
  }

  /** An extension that appends a zero byte. */
  const APPEND_ZERO := Extension(0, p => p + [0], p => if p == [] then None else Some(p[..|p| - 1]))

  /** An example: one byte in one frame arrives with the extension's byte still on it. */
  lemma SingleFrameStaysEncoded(env: Env)
    requires env.exts == [APPEND_ZERO] && env.max >= 2
    ensures var s := Sent([7], BINARY, false, 0);
            AllInvert(env.exts) && Carried(env, s) && Receipt(env, s).payload == [7, 0] != s.bytes
  {
    var s := Sent([7], BINARY, false, 0);
    forall p: Bytes ensures APPEND_ZERO.decode(APPEND_ZERO.encode(p)) == Some(p) {
      assert (p + [0])[..|p|] == p;
    }
    assert Inverts(APPEND_ZERO);
    assert Encoded(env.exts, 0, s.bytes) == [7];
    assert s.Message(env.exts).payload == [7] + [0] == [7, 0];
    FramesFitIff(env, s);
    PipelineInverts(env.exts, s.bytes, s.kind);
  }
}

/** What a receiver makes of frames: one message, a sequence of messages, control frames in between. */
module Delivery {
  import opened ByteArrays
  import opened Frames
  import opened Messages
  import opened Extensions
  import opened FrameBuilding
  import opened MessageParsing
  import opened Protocol

  // ---- Whole frames through the message parser --------------------------------------

  /** Taking one more frame. */
  function AndThen(env: Env, t: Taken, f: Frame): Taken {
    if t.Refused? then Refused
    else
      var next := Take(env, t.message, f);
      if next.Refused? then Refused else Taken(t.events + next.events, next.message)
  }

  /** Taking whole frames in order, from a fresh message. */
  function TakeAll(env: Env, fs: seq<Frame>): Taken
    decreases |fs|
  {
    if fs == [] then Taken([], FRESH) else AndThen(env, TakeAll(env, fs[..|fs| - 1]), fs[|fs| - 1])
  }

  lemma TakeAllSnoc(env: Env, fs: seq<Frame>, f: Frame)
    ensures TakeAll(env, fs + [f]) == AndThen(env, TakeAll(env, fs), f)
  {
    hide Take;
    assert (fs + [f])[..|fs|] == fs;
  }

  /** An unmasked frame the receiver's limit lets through. */
  predicate Fits(env: Env, f: Frame) {
    f.Plain() && |f.payload| <= env.max && |f.payload| < UINT64_SPAN
  }

  /** A frame that the receiver's limit lets through. */
  predicate Readable(env: Env, f: Frame) {
    |f.payload| <= env.max && |f.payload| < UINT64_SPAN
  }

  lemma ScanOneFrame(env: Env, m: Message, f: Frame)
    requires f.KeyFits() && Readable(env, f)
    ensures match Take(env, m, f)
            case Refused => Scan(env, m, Encode(OnWire(f))) == Scanned([], BadMessage)
            case Taken(events, next) => Scan(env, m, Encode(OnWire(f))) == Scanned(events, Alive([], next))
  {
    hide Take, Decode, Encode;
    RoundTrip(env.max, f, []);
    var bytes := Encode(OnWire(f));
    assert bytes + [] == bytes;
    var t := Take(env, m, f);
    if t.Taken? {
      assert bytes[|bytes|..] == [];
      ScanNothing(env, t.message);
      assert t.events + [] == t.events;
    }
  }

  /** A call that begins with a whole frame reports an error if and only if that frame is refused, whatever follows it;
      one that begins with a frame over the limit always does. */
  lemma FirstFrameDecides(env: Env, m: Message, f: Frame, more: Bytes)
    requires f.KeyFits() && |f.payload| < UINT64_SPAN
    ensures Reports(env, Alive([], m), Encode(OnWire(f)) + more)
        <==> env.max < |f.payload| || Take(env, m, f).Refused?
  {
    hide Take, Decode, Encode;
    var bytes := Encode(OnWire(f)) + more;
    assert [] + bytes == bytes;
    if |f.payload| <= env.max {
      RoundTrip(env.max, f, more);
    } else {
      LongFrameRefused(env.max, OnWire(f), more);
    }
  }

  /** The frames as they travel, masked ones XORed with their keys. */
  function OnWireAll(fs: seq<Frame>): (wire: seq<Frame>)
    requires forall f | f in fs :: f.KeyFits()
    ensures |wire| == |fs|
  {
    seq(|fs|, i requires 0 <= i < |fs| => assert fs[i] in fs; OnWire(fs[i]))
  }

  /** The bytes of readable frames are read as exactly those frames, unmasked. */
  lemma {:induction false} ScanFrames(env: Env, fs: seq<Frame>)
    requires forall f | f in fs :: f.KeyFits() && Readable(env, f)
    requires TakeAll(env, fs).Taken?
    ensures Scan(env, FRESH, EncodeAll(OnWireAll(fs)))
         == Scanned(TakeAll(env, fs).events, Alive([], TakeAll(env, fs).message))
    decreases |fs|
  {
    hide Take, Decode, Encode, Scan, OnWire;
    if fs == [] {
      ScanNothing(env, FRESH);
      assert EncodeAll([]) == [] && [] + EncodeAll([]) == EncodeAll([]);
      assert OnWireAll(fs) == [];
    } else {
      var front, last := fs[..|fs| - 1], fs[|fs| - 1];
      assert last in fs;
      ScanFrames(env, front);
      assert OnWireAll(fs) == OnWireAll(front) + [OnWire(last)];
      EncodeAllConcat(OnWireAll(front), [OnWire(last)]);
      EncodeAllOne(OnWire(last));
      ScanResumes(env, FRESH, EncodeAll(OnWireAll(front)), Encode(OnWire(last)));
      ScanOneFrame(env, TakeAll(env, front).message, last);
      assert [] + Encode(OnWire(last)) == Encode(OnWire(last));
    }
  }

  /** Unmasked frames travel as they are. */
  lemma ScanPlainFrames(env: Env, fs: seq<Frame>)
    requires (forall f | f in fs :: Fits(env, f)) && TakeAll(env, fs).Taken?
    ensures Scan(env, FRESH, EncodeAll(fs)) == Scanned(TakeAll(env, fs).events, Alive([], TakeAll(env, fs).message))
  {
    hide TakeAll, Scan;
    assert forall f | f in fs :: f.KeyFits() && !f.header.mask && Readable(env, f) by {
      forall f | f in fs ensures f.KeyFits() && !f.header.mask && Readable(env, f) {
        assert Fits(env, f);
      }
    }
    forall i | 0 <= i < |fs| ensures OnWireAll(fs)[i] == fs[i] {
      assert fs[i] in fs;
    }
    assert OnWireAll(fs) == fs;
    ScanFrames(env, fs);
  }

  // ---- Control frames in between -------------------------------------------------------

  /** The messages among the events, in order. */
  function MessagesOf(events: seq<Event>): seq<Message> {
    if events == [] then []
    else
      MessagesOf(events[..|events| - 1])
      + if events[|events| - 1].Delivered? then [events[|events| - 1].message] else []
  }

  lemma {:induction false} MessagesOfConcat(a: seq<Event>, b: seq<Event>)
    ensures MessagesOf(a + b) == MessagesOf(a) + MessagesOf(b)
    decreases |b|
  {
    if b == [] {
      assert a + b == a;
    } else {
      MessagesOfConcat(a, b[..|b| - 1]);
      assert (a + b)[..|a + b| - 1] == a + b[..|b| - 1];
    }
  }

  /** The same outcome as far as messages go. */
  predicate SameMessages(t: Taken, u: Taken) {
    match (t, u)
    case (Refused, Refused) => true
    case (Taken(a, m), Taken(b, n)) => m == n && MessagesOf(a) == MessagesOf(b)
    case _ => false
  }

  lemma DataFrameKeepsSame(env: Env, t: Taken, u: Taken, f: Frame)
    requires SameMessages(t, u)
    ensures SameMessages(AndThen(env, t, f), AndThen(env, u, f))
  {
    hide Take;
    if t.Taken? && Take(env, t.message, f).Taken? {
      MessagesOfConcat(t.events, Take(env, t.message, f).events);
      MessagesOfConcat(u.events, Take(env, t.message, f).events);
    }
  }

  lemma ControlFrameKeepsSame(env: Env, t: Taken, u: Taken, f: Frame)
    requires SameMessages(t, u) && f.IsControl()
    ensures SameMessages(AndThen(env, t, f), u)
  {
    if t.Taken? {
      MessagesOfConcat(t.events, [Control(f)]);
      assert MessagesOf([Control(f)]) == [];
    }
  }

  /** Control frames, wherever they are, change nothing about the messages. */
  lemma {:induction false} ControlFramesAside(env: Env, fs: seq<Frame>)
    ensures SameMessages(TakeAll(env, fs), TakeAll(env, DataOf(fs)))
    decreases |fs|
  {
    hide Take, AndThen;
    if fs == [] {
    } else {
      var front, last := fs[..|fs| - 1], fs[|fs| - 1];
      ControlFramesAside(env, front);
      var t, u := TakeAll(env, front), TakeAll(env, DataOf(front));
      if last.IsControl() {
        assert DataOf(fs) == DataOf(front);
        ControlFrameKeepsSame(env, t, u, last);
      } else {
        TakeAllSnoc(env, DataOf(front), last);
        DataFrameKeepsSame(env, t, u, last);
      }
    }
  }

  /** The control frames among the events, in order. */
  function ControlsOf(events: seq<Event>): seq<Frame> {
    if events == [] then []
    else ControlsOf(events[..|events| - 1])
         + if events[|events| - 1].Control? then [events[|events| - 1].frame] else []
  }

  /** The Close, Ping and Pong frames, in order. */
  function ControlFramesOf(fs: seq<Frame>): seq<Frame> {
    if fs == [] then []
    else
      var last := fs[|fs| - 1];
      ControlFramesOf(fs[..|fs| - 1]) + if last.header.opcode in {8, 9, 10} then [last] else []
  }

  lemma ControlsOfSnoc(events: seq<Event>, e: Event)
    ensures ControlsOf(events + [e]) == ControlsOf(events) + if e.Control? then [e.frame] else []
  {
    assert (events + [e])[..|events|] == events;
  }

  lemma {:induction false} ControlsTaken(env: Env, fs: seq<Frame>)
    requires TakeAll(env, fs).Taken?
    ensures ControlsOf(TakeAll(env, fs).events) == ControlFramesOf(fs)
    decreases |fs|
  {
    if fs == [] {
    } else {
      var front, last := fs[..|fs| - 1], fs[|fs| - 1];
      ControlsTaken(env, front);
      var t := TakeAll(env, front);
      var next := Take(env, t.message, last);
      hide AfterFrame, Extensions.Decoded;
      if next.events == [] {
        assert t.events + [] == t.events;
      } else {
        ControlsOfSnoc(t.events, next.events[0]);
        assert t.events + next.events == t.events + [next.events[0]];
      }
    }
  }

  /** Every Close, Ping and Pong frame of a stream is handed on, as it was sent and in order, and nothing else is handed
      on as a control frame. */
  lemma EveryControlIsHeard(env: Env, fs: seq<Frame>)
    requires forall f | f in fs :: f.KeyFits() && Readable(env, f)
    requires TakeAll(env, fs).Taken?
    ensures ControlsOf(Scan(env, FRESH, EncodeAll(OnWireAll(fs))).events) == ControlFramesOf(fs)
  {
    hide *;
    ScanFrames(env, fs);
    ControlsTaken(env, fs);
  }

  // ---- One message ----------------------------------------------------------------------

  /** The RSV bits that reach the receiver. */
  function SentFlags(exts: seq<Extension>, s: Sent): Rsv {
    if s.Valid() then SentRsv(s.Message(exts), s.fragmentation, s.mtu) else NO_RSV
  }

  /** The payload the receiver's application sees. */
  function Arriving(env: Env, s: Sent): Option<Bytes> {
    Extensions.Decoded(env.exts, |env.exts|, SentFlags(env.exts, s), s.Message(env.exts).payload)
  }

  /** A message whose frames arrive and make a message: of a known kind, its text check passed and its frames
      within the limit. */
  predicate Carried(env: Env, s: Sent) {
    && s.Valid() && s.kind != CONTINUATION
    && (s.kind == TEXT ==> env.textOk(s.Message(env.exts).payload))
    && (forall f | f in s.Frames(env.exts) :: Fits(env, f))
  }

  /** And the receiver's extensions can decode it. */
  predicate Deliverable(env: Env, s: Sent) {
    Carried(env, s) && Arriving(env, s).Some?
  }

  /** The message the receiver's application sees. */
  function Receipt(env: Env, s: Sent): Message {
    var payload := match Arriving(env, s) case None => [] case Some(p) => p;
    Message(s.kind, payload, SentFlags(env.exts, s), true, |s.Frames(env.exts)|)
  }

  function Receipts(env: Env, sents: seq<Sent>): seq<Message> {
    seq(|sents|, i requires 0 <= i < |sents| => Receipt(env, sents[i]))
  }

  /** Frames of an unfinished message, taken after whole messages, deliver nothing and leave the message
      they make so far. */
  lemma {:induction false} TakeOpen(env: Env, before: seq<Frame>, fs: seq<Frame>)
    requires TakeAll(env, before).Taken? && TakeAll(env, before).message == FRESH
    requires forall f | f in fs :: !f.IsControl()
    requires forall k :: 0 < k <= |fs| ==>
               AddAll(env.textOk, fs[..k]).Some? && !AddAll(env.textOk, fs[..k]).value.complete
    ensures AddAll(env.textOk, fs).Some?
    ensures TakeAll(env, before + fs) == Taken(TakeAll(env, before).events, AddAll(env.textOk, fs).value)
    decreases |fs|
  {
    hide TakeAll, AfterFrame;
    if fs == [] {
      assert before + fs == before;
    } else {
      var front, last := fs[..|fs| - 1], fs[|fs| - 1];
      forall k | 0 < k <= |front|
        ensures AddAll(env.textOk, front[..k]).Some? && !AddAll(env.textOk, front[..k]).value.complete
      {
        assert front[..k] == fs[..k];
      }
      TakeOpen(env, before, front);
      assert before + fs == (before + front) + [last] && fs[..|fs|] == fs;
      TakeAllSnoc(env, before + front, last);
      assert TakeAll(env, before).events + [] == TakeAll(env, before).events;
    }
  }

  lemma TakeLast(env: Env, before: seq<Frame>, s: Sent)
    requires Deliverable(env, s) && s.Frames(env.exts) != []
    requires var fs := s.Frames(env.exts);
             var front := fs[..|fs| - 1];
             && TakeAll(env, before).Taken? && AddAll(env.textOk, front).Some?
             && TakeAll(env, before + front) == Taken(TakeAll(env, before).events, AddAll(env.textOk, front).value)
             && AddAll(env.textOk, fs)
                == Some(Message(s.kind, s.Message(env.exts).payload, SentFlags(env.exts, s), true, |fs|))
             && !fs[|fs| - 1].IsControl()
    ensures var fs := s.Frames(env.exts);
            TakeAll(env, before + fs[..|fs|])
            == Taken(TakeAll(env, before).events + [Delivered(Receipt(env, s))], FRESH)
  {
    hide TakeAll, AfterFrame, BuildFrames;
    var fs := s.Frames(env.exts);
    var front, last := fs[..|fs| - 1], fs[|fs| - 1];
    assert before + fs[..|fs|] == (before + front) + [last];
    TakeAllSnoc(env, before + front, last);
  }

  lemma BuiltIsNotEmpty(m: Message, fragmentation: bool, mtu: nat)
    requires fragmentation ==> mtu > 0
    ensures BuildFrames(m, fragmentation, mtu) != []
  {
  }

  /** The frames of one message, taken after whole messages: nothing is delivered before the last frame,
      and the receipt with it. */
  lemma TakeMessage(env: Env, before: seq<Frame>, s: Sent, j: nat)
    requires Deliverable(env, s) && j <= |s.Frames(env.exts)|
    requires TakeAll(env, before).Taken? && TakeAll(env, before).message == FRESH
    ensures var fs := s.Frames(env.exts);
            var t := TakeAll(env, before + fs[..j]);
            var b := TakeAll(env, before);
            if j == |fs| then t == Taken(b.events + [Delivered(Receipt(env, s))], FRESH)
            else t.Taken? && t.events == b.events
  {
    var fs := s.Frames(env.exts);
    var n := |fs|;
    BuildThenReassemble(env.textOk, s.Message(env.exts), s.fragmentation, s.mtu);
    SentFramesAreData(env.exts, s);
    BuiltIsNotEmpty(s.Message(env.exts), s.fragmentation, s.mtu);
    hide BuildFrames, TakeAll, BuildCount, AfterFrame, AddAll;
    var i := if j == n then n - 1 else j;
    forall k | 0 < k <= i
      ensures fs[..i][..k] == fs[..k]
    {
    }
    TakeOpen(env, before, fs[..i]);
    if j == n {
      TakeLast(env, before, s);
    }
  }

  /** The length of the longest frame is one that 64 bits can hold. */
  predicate FramesHold(env: Env, s: Sent) {
    LongestFrame(|s.Message(env.exts).payload|, s.fragmentation, s.mtu) < UINT64_SPAN
  }

  /** The longest frame of the message is within the receiver's limit. */
  predicate ShortFrames(env: Env, s: Sent) {
    var longest := LongestFrame(|s.Message(env.exts).payload|, s.fragmentation, s.mtu);
    longest <= env.max && longest < UINT64_SPAN
  }

  lemma FramesFitIff(env: Env, s: Sent)
    requires s.Valid()
    ensures ShortFrames(env, s) <==> forall f | f in s.Frames(env.exts) :: Fits(env, f)
  {
    var m := s.Message(env.exts);
    var fs := s.Frames(env.exts);
    BuiltIsNotEmpty(m, s.fragmentation, s.mtu);
    hide BuildFrames, LongestFrame;
    BuiltArePlain(m, s.fragmentation, s.mtu, 0);
    assert fs[0] in fs;
    if ShortFrames(env, s) {
      forall f | f in fs ensures Fits(env, f) {
        var i :| 0 <= i < |fs| && fs[i] == f;
        BuiltArePlain(m, s.fragmentation, s.mtu, i);
      }
    }
  }

  // ---- A sequence of messages ---------------------------------------------------------------

  /** How many of the messages have all their frames among the first n. */
  function WholeMessages(exts: seq<Extension>, sents: seq<Sent>, n: nat): (k: nat)
    ensures k <= |sents|
  {
    if sents == [] || n >= |AllFrames(exts, sents)| then |sents|
    else WholeMessages(exts, sents[..|sents| - 1], n)
  }

  lemma WholeOf(exts: seq<Extension>, front: seq<Sent>, s: Sent, n: nat)
    requires s.Frames(exts) != []
    ensures AllFrames(exts, front + [s]) == AllFrames(exts, front) + s.Frames(exts)
    ensures WholeMessages(exts, front + [s], n)
         == if n >= |AllFrames(exts, front + [s])| then |front| + 1 else WholeMessages(exts, front, n)
    ensures n >= |AllFrames(exts, front)| ==> WholeMessages(exts, front, n) == |front|
  {
    hide BuildFrames;
    AcceptedSnoc(exts, front, s);
    assert (front + [s])[..|front|] == front;
  }

  lemma ReceiptsSnoc(env: Env, front: seq<Sent>, s: Sent, k: nat)
    ensures Receipts(env, front + [s]) == Receipts(env, front) + [Receipt(env, s)]
    ensures k <= |front| ==> (front + [s])[..k] == front[..k]
  {
    hide Receipt;
  }

  /** Taking the frames refuses nothing and delivers exactly the messages that are whole in them. */
  ghost predicate Delivers(env: Env, sents: seq<Sent>, d: seq<Frame>) {
    var t := TakeAll(env, d);
    && t.Taken?
    && MessagesOf(t.events) == Receipts(env, sents[..WholeMessages(env.exts, sents, |d|)])
    && (d == AllFrames(env.exts, sents) ==> t.message == FRESH)
  }

  lemma ShortOfLast(env: Env, front: seq<Sent>, s: Sent, d: seq<Frame>)
    requires s.Frames(env.exts) != []
    requires |d| < |AllFrames(env.exts, front)| && Delivers(env, front, d)
    ensures Delivers(env, front + [s], d)
  {
    hide Receipt, Receipts, TakeAll, AllFrames, WholeMessages, BuildFrames, MessagesOf;
    WholeOf(env.exts, front, s, |d|);
    ReceiptsSnoc(env, front, s, WholeMessages(env.exts, front, |d|));
  }

  lemma OneMore(events: seq<Event>, m: Message)
    ensures MessagesOf(events + [Delivered(m)]) == MessagesOf(events) + [m]
  {
    assert (events + [Delivered(m)])[..|events|] == events;
  }

  lemma IntoLast(env: Env, front: seq<Sent>, s: Sent, j: nat)
    requires Deliverable(env, s) && s.Frames(env.exts) != [] && j <= |s.Frames(env.exts)|
    requires Delivers(env, front, AllFrames(env.exts, front))
    ensures Delivers(env, front + [s], AllFrames(env.exts, front) + s.Frames(env.exts)[..j])
  {
    hide Deliverable, Receipt, Receipts, TakeAll, AllFrames, WholeMessages, BuildFrames, MessagesOf;
    var a, fs := AllFrames(env.exts, front), s.Frames(env.exts);
    WholeOf(env.exts, front, s, |a| + j);
    WholeOf(env.exts, front, s, |a|);
    ReceiptsSnoc(env, front, s, |front|);
    assert front[..|front|] == front && (front + [s])[..|front| + 1] == front + [s];
    TakeMessage(env, a, s, j);
    OneMore(TakeAll(env, a).events, Receipt(env, s));
  }

  lemma PrefixOfTwo<T>(d: seq<T>, a: seq<T>, b: seq<T>)
    ensures d <= a + b ==> if |d| < |a| then d <= a else d == a + b[..|d| - |a|]
  {
  }

  lemma PrefixStep(env: Env, front: seq<Sent>, s: Sent, d: seq<Frame>)
    requires Deliverable(env, s) && s.Frames(env.exts) != []
    requires d <= AllFrames(env.exts, front) + s.Frames(env.exts)
    requires |d| < |AllFrames(env.exts, front)| ==> Delivers(env, front, d)
    requires Delivers(env, front, AllFrames(env.exts, front))
    ensures Delivers(env, front + [s], d)
  {
    hide *;
    var a := AllFrames(env.exts, front);
    PrefixOfTwo(d, a, s.Frames(env.exts));
    if |d| < |a| {
      ShortOfLast(env, front, s, d);
    } else {
      IntoLast(env, front, s, |d| - |a|);
    }
  }

  lemma LastOfAll(env: Env, sents: seq<Sent>)
    requires sents != [] && Deliverable(env, sents[|sents| - 1])
    ensures var front, s := sents[..|sents| - 1], sents[|sents| - 1];
            && sents == front + [s] && s.Frames(env.exts) != []
            && AllFrames(env.exts, sents) == AllFrames(env.exts, front) + s.Frames(env.exts)
  {
    var s := sents[|sents| - 1];
    BuiltIsNotEmpty(s.Message(env.exts), s.fragmentation, s.mtu);
    hide BuildFrames;
  }

  /** Any prefix of the frames of a sequence of messages delivers exactly the messages whole in it. */
  lemma {:induction false} PrefixDelivers(env: Env, sents: seq<Sent>, d: seq<Frame>)
    requires forall s | s in sents :: Deliverable(env, s)
    requires d <= AllFrames(env.exts, sents)
    ensures Delivers(env, sents, d)
    decreases |sents|
  {
    if sents == [] {
    } else {
      var front, s := sents[..|sents| - 1], sents[|sents| - 1];
      assert s in sents;
      LastOfAll(env, sents);
      hide *;
      var a := AllFrames(env.exts, front);
      if |d| < |a| {
        PrefixOfTwo(d, a, s.Frames(env.exts));
        PrefixDelivers(env, front, d);
      }
      PrefixDelivers(env, front, a);
      PrefixStep(env, front, s, d);
    }
  }
}

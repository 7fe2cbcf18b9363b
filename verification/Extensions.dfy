/** Per-message extensions: encoding a message, decoding it, agreeing on which to use
    (ws/ws_message_builder.h, ws/ws_pme.h, ws/websocket.h). */
module Extensions {
  import opened ByteArrays
  import opened Frames
  import opened Messages

  type RsvIndex = i: nat | i < 3

  /** An extension with its parameters applied, as it acts on the payload. */
  datatype Extension = Extension(rsvIndex: RsvIndex, encode: Bytes -> Bytes, decode: Bytes -> Option<Bytes>)

  /** Decoding undoes encoding. */
  ghost predicate Inverts(e: Extension) {
    forall p :: e.decode(e.encode(p)) == Some(p)
  }

  /** The payload after the first n extensions, applied in list order. */
  function Encoded(exts: seq<Extension>, n: nat, payload: Bytes): Bytes
    requires n <= |exts|
  {
    if n == 0 then payload else exts[n - 1].encode(Encoded(exts, n - 1, payload))
  }

  function Flags(exts: seq<Extension>, n: nat): Rsv
    requires n <= |exts|
  {
    if n == 0 then NO_RSV else Flags(exts, n - 1).Set(exts[n - 1].rsvIndex)
  }

  /** The message built from raw bytes. */
  function Built(exts: seq<Extension>, bytes: Bytes, kind: Opcode): Message {
    Message(kind, Encoded(exts, |exts|, bytes), Flags(exts, |exts|), true, 0)
  }

  method BuildMessage(exts: seq<Extension>, bytes: Bytes, kind: Opcode) returns (message: Message)
    ensures message == Built(exts, bytes, kind)
  {
    message := FRESH.(payload := bytes, kind := kind, complete := true);
    var i := 0;
    while i < |exts|
      invariant i <= |exts|
      invariant message == Message(kind, Encoded(exts, i, bytes), Flags(exts, i), true, 0)
    {
      message := message.(payload := exts[i].encode(message.payload));
      message := message.(rsv := message.rsv.Set(exts[i].rsvIndex));
      i := i + 1;
    }
  }

  /** The payload after decoding with the first n extensions, last one first,
      each only if its RSV bit is set; nothing if one of them refuses. */
  function Decoded(exts: seq<Extension>, n: nat, rsv: Rsv, payload: Bytes): Option<Bytes>
    requires n <= |exts|
  {
    if n == 0 then Some(payload)
    else if !rsv.Get(exts[n - 1].rsvIndex) then Decoded(exts, n - 1, rsv, payload)
    else
      match exts[n - 1].decode(payload)
      case None => None
      case Some(p) => Decoded(exts, n - 1, rsv, p)
  }

  // ---- Which extensions act ------------------------------------------------------

  /** The flag of the extension's own bit is set: RSV1 for index 0, RSV2 for 1, RSV3 for 2. */
  predicate TurnedOn(e: Extension, rsv: Rsv) {
    (e.rsvIndex == 0 && rsv.rsv1) || (e.rsvIndex == 1 && rsv.rsv2) || (e.rsvIndex == 2 && rsv.rsv3)
  }

  /** The extensions turned on, in list order. */
  function ActiveOf(exts: seq<Extension>, rsv: Rsv): seq<Extension> {
    if exts == [] then [] else (if TurnedOn(exts[0], rsv) then [exts[0]] else []) + ActiveOf(exts[1..], rsv)
  }

  /** The payload decoded by each of the extensions in turn, last one first; nothing if one of them refuses. */
  function DecodedByEach(exts: seq<Extension>, payload: Bytes): Option<Bytes>
    decreases |exts|
  {
    if exts == [] then Some(payload)
    else
      match exts[|exts| - 1].decode(payload)
      case None => None
      case Some(p) => DecodedByEach(exts[..|exts| - 1], p)
  }

  lemma {:induction false} ActiveSnoc(exts: seq<Extension>, e: Extension, rsv: Rsv)
    ensures ActiveOf(exts + [e], rsv) == ActiveOf(exts, rsv) + if TurnedOn(e, rsv) then [e] else []
    decreases |exts|
  {
    if exts == [] {
      assert [e][1..] == [];
    } else {
      assert (exts + [e])[0] == exts[0] && (exts + [e])[1..] == exts[1..] + [e];
      ActiveSnoc(exts[1..], e, rsv);
    }
  }

  lemma DecodedSnoc(exts: seq<Extension>, e: Extension, payload: Bytes)
    ensures DecodedByEach(exts + [e], payload)
         == match e.decode(payload)
            case None => None
            case Some(p) => DecodedByEach(exts, p)
  {
    assert (exts + [e])[..|exts|] == exts;
  }

  lemma {:induction false} DecodedUpTo(exts: seq<Extension>, n: nat, rsv: Rsv, payload: Bytes)
    requires n <= |exts|
    ensures Decoded(exts, n, rsv, payload) == DecodedByEach(ActiveOf(exts[..n], rsv), payload)
  {
    if n == 0 {
    } else {
      var e := exts[n - 1];
      var front := ActiveOf(exts[..n - 1], rsv);
      assert exts[..n] == exts[..n - 1] + [e];
      assert rsv.Get(e.rsvIndex) == TurnedOn(e, rsv);
      hide ActiveOf, DecodedByEach, TurnedOn;
      ActiveSnoc(exts[..n - 1], e, rsv);
      if TurnedOn(e, rsv) {
        DecodedSnoc(front, e, payload);
        if e.decode(payload).Some? {
          DecodedUpTo(exts, n - 1, rsv, e.decode(payload).value);
        }
      } else {
        assert front + [] == front;
        DecodedUpTo(exts, n - 1, rsv, payload);
      }
    }
  }

  /** Whatever flags a message carries: it is decoded by exactly the extensions whose own flag is set, last one
      first, and refused if one of these refuses. */
  lemma DecodedByActive(exts: seq<Extension>, rsv: Rsv, payload: Bytes)
    ensures Decoded(exts, |exts|, rsv, payload) == DecodedByEach(ActiveOf(exts, rsv), payload)
  {
    DecodedUpTo(exts, |exts|, rsv, payload);
    assert exts[..|exts|] == exts;
  }

  method ExtensionDecode(exts: seq<Extension>, rsv: Rsv, payload: Bytes) returns (res: Option<Bytes>)
    ensures res == Decoded(exts, |exts|, rsv, payload)
    ensures res == DecodedByEach(ActiveOf(exts, rsv), payload)
  {
    DecodedByActive(exts, rsv, payload);
    hide ActiveOf, DecodedByEach;
    var current := payload;
    var i := |exts| - 1;
    while i >= 0
      invariant -1 <= i < |exts|
      invariant Decoded(exts, |exts|, rsv, payload) == Decoded(exts, i + 1, rsv, current)
    {
      if rsv.Get(exts[i].rsvIndex) {
        var p := exts[i].decode(current);
        if p.None? {
          return None;
        }
        current := p.value;
      }
      i := i - 1;
    }
    return Some(current);
  }

  /** The payload encoded by each of the extensions in turn, first one first. */
  function EncodedByEach(exts: seq<Extension>, payload: Bytes): Bytes {
    if exts == [] then payload else EncodedByEach(exts[1..], exts[0].encode(payload))
  }

  lemma {:induction false} EncodedSnoc(exts: seq<Extension>, e: Extension, payload: Bytes)
    ensures EncodedByEach(exts + [e], payload) == e.encode(EncodedByEach(exts, payload))
    decreases |exts|
  {
    if exts == [] {
      assert [e][1..] == [];
    } else {
      assert (exts + [e])[0] == exts[0] && (exts + [e])[1..] == exts[1..] + [e];
      EncodedSnoc(exts[1..], e, exts[0].encode(payload));
    }
  }

  lemma {:induction false} EachInverts(exts: seq<Extension>, payload: Bytes)
    requires forall e | e in exts :: Inverts(e)
    ensures DecodedByEach(exts, EncodedByEach(exts, payload)) == Some(payload)
    decreases |exts|
  {
    if exts == [] {
    } else {
      var front, e := exts[..|exts| - 1], exts[|exts| - 1];
      assert exts == front + [e] && e in exts;
      EncodedSnoc(front, e, payload);
      assert Inverts(e) && e.decode(e.encode(EncodedByEach(front, payload))) == Some(EncodedByEach(front, payload));
      EachInverts(front, payload);
    }
  }

  lemma {:induction false} ActiveAreOn(exts: seq<Extension>, rsv: Rsv)
    ensures forall e :: e in ActiveOf(exts, rsv) <==> e in exts && TurnedOn(e, rsv)
    decreases |exts|
  {
    hide TurnedOn;
    if exts == [] {
    } else {
      ActiveAreOn(exts[1..], rsv);
      assert exts == [exts[0]] + exts[1..];
    }
  }

  /** For every combination of flags: a payload encoded in list order by exactly the extensions whose flag is set is
      decoded to the original if these invert, whatever the others do. */
  lemma FlaggedInverts(exts: seq<Extension>, rsv: Rsv, payload: Bytes)
    requires forall e | e in exts && TurnedOn(e, rsv) :: Inverts(e)
    ensures Decoded(exts, |exts|, rsv, EncodedByEach(ActiveOf(exts, rsv), payload)) == Some(payload)
  {
    hide Inverts, TurnedOn;
    ActiveAreOn(exts, rsv);
    EachInverts(ActiveOf(exts, rsv), payload);
    DecodedByActive(exts, rsv, EncodedByEach(ActiveOf(exts, rsv), payload));
  }

  /** What an extension whose flag is clear would do makes no difference. */
  lemma {:induction false} ClearFlagsDoNothing(
      exts: seq<Extension>, others: seq<Extension>, n: nat, rsv: Rsv, payload: Bytes)
    requires n <= |exts| == |others|
    requires forall k :: 0 <= k < n ==>
               exts[k].rsvIndex == others[k].rsvIndex
               && (TurnedOn(exts[k], rsv) ==> exts[k].decode == others[k].decode)
    ensures Decoded(exts, n, rsv, payload) == Decoded(others, n, rsv, payload)
  {
    if n == 0 {
    } else if !TurnedOn(exts[n - 1], rsv) {
      ClearFlagsDoNothing(exts, others, n - 1, rsv, payload);
    } else {
      var p := exts[n - 1].decode(payload);
      if p.Some? {
        ClearFlagsDoNothing(exts, others, n - 1, rsv, p.value);
      }
    }
  }

  lemma {:induction false} FlagsUpTo(exts: seq<Extension>, n: nat)
    requires n <= |exts|
    ensures Flags(exts, n).rsv1 <==> exists k :: 0 <= k < n && exts[k].rsvIndex == 0
    ensures Flags(exts, n).rsv2 <==> exists k :: 0 <= k < n && exts[k].rsvIndex == 1
    ensures Flags(exts, n).rsv3 <==> exists k :: 0 <= k < n && exts[k].rsvIndex == 2
  {
    if n == 0 {
    } else {
      FlagsUpTo(exts, n - 1);
    }
  }

  lemma {:induction false} EncodedUpTo(exts: seq<Extension>, n: nat, payload: Bytes)
    requires n <= |exts|
    ensures Encoded(exts, n, payload) == EncodedByEach(exts[..n], payload)
  {
    if n == 0 {
    } else {
      EncodedUpTo(exts, n - 1, payload);
      assert exts[..n] == exts[..n - 1] + [exts[n - 1]];
      EncodedSnoc(exts[..n - 1], exts[n - 1], payload);
    }
  }

  /** A message is built by all the extensions in list order, and carries exactly their flags. */
  lemma BuiltByEach(exts: seq<Extension>, bytes: Bytes, kind: Opcode)
    ensures var m := Built(exts, bytes, kind);
            && m.kind == kind && m.complete && m.payload == EncodedByEach(exts, bytes)
            && (m.rsv.rsv1 <==> exists k :: 0 <= k < |exts| && exts[k].rsvIndex == 0)
            && (m.rsv.rsv2 <==> exists k :: 0 <= k < |exts| && exts[k].rsvIndex == 1)
            && (m.rsv.rsv3 <==> exists k :: 0 <= k < |exts| && exts[k].rsvIndex == 2)
  {
    EncodedUpTo(exts, |exts|, bytes);
    FlagsUpTo(exts, |exts|);
    assert exts[..|exts|] == exts;
  }

  // ---- Sending and receiving with all flags, or with none --------------------------------

  lemma {:induction false} FlagsSet(exts: seq<Extension>, n: nat, k: nat)
    requires k < n <= |exts|
    ensures Flags(exts, n).Get(exts[k].rsvIndex)
  {
    if k >= n - 1 {
    } else {
      FlagsSet(exts, n - 1, k);
    }
  }

  lemma {:induction false} DecodeUndoesEncode(exts: seq<Extension>, n: nat, rsv: Rsv, payload: Bytes)
    requires n <= |exts|
    requires forall k :: 0 <= k < n ==> Inverts(exts[k]) && rsv.Get(exts[k].rsvIndex)
    ensures Decoded(exts, n, rsv, Encoded(exts, n, payload)) == Some(payload)
  {
    if n == 0 {
    } else {
      var p := Encoded(exts, n - 1, payload);
      assert Inverts(exts[n - 1]) && exts[n - 1].decode(exts[n - 1].encode(p)) == Some(p);
      DecodeUndoesEncode(exts, n - 1, rsv, payload);
    }
  }

  lemma {:induction false} NoFlagsNoDecoding(exts: seq<Extension>, n: nat, payload: Bytes)
    requires n <= |exts|
    ensures Decoded(exts, n, NO_RSV, payload) == Some(payload)
  {
    if n == 0 {
    } else {
      NoFlagsNoDecoding(exts, n - 1, payload);
    }
  }

  /** Extensions that invert give back the original payload if the flags travel with the message,
      and leave it encoded if they do not. */
  lemma PipelineInverts(exts: seq<Extension>, bytes: Bytes, kind: Opcode)
    requires forall k :: 0 <= k < |exts| ==> Inverts(exts[k])
    ensures var m := Built(exts, bytes, kind);
            && Decoded(exts, |exts|, m.rsv, m.payload) == Some(bytes)
            && Decoded(exts, |exts|, NO_RSV, m.payload) == Some(m.payload)
  {
    forall k | 0 <= k < |exts|
      ensures Flags(exts, |exts|).Get(exts[k].rsvIndex)
    {
      FlagsSet(exts, |exts|, k);
    }
    DecodeUndoesEncode(exts, |exts|, Flags(exts, |exts|), bytes);
    NoFlagsNoDecoding(exts, |exts|, Built(exts, bytes, kind).payload);
  }

  // ---- Negotiation --------------------------------------------------------------

  ghost predicate Serves(extensions: seq<Extension>, r: RsvIndex) {
    exists k :: 0 <= k < |extensions| && extensions[k].rsvIndex == r
  }

  ghost predicate ServedBy(extensions: seq<Extension>, at: seq<nat>, r: RsvIndex, i: nat) {
    exists k :: 0 <= k < |at| && k < |extensions| && at[k] <= i && extensions[k].rsvIndex == r
  }

  /** The extensions are offers in the order offered, at the positions `at`, no two of them share an
      RSV bit, and every bit a known offer asks for is served by the first offer that asked. */
  ghost predicate Agreed(offers: seq<Option<Extension>>, extensions: seq<Extension>, at: seq<nat>) {
    && |at| == |extensions|
    && (forall k :: 0 <= k < |at| ==> at[k] < |offers| && offers[at[k]] == Some(extensions[k]))
    && (forall j, k :: 0 <= j < k < |at| ==> at[j] < at[k])
    && (forall j, k :: 0 <= j < k < |at| ==> extensions[j].rsvIndex != extensions[k].rsvIndex)
    && (forall i :: 0 <= i < |offers| && offers[i].Some? ==> ServedBy(extensions, at, offers[i].value.rsvIndex, i))
  }

  lemma AgreedSkip(offers: seq<Option<Extension>>, extensions: seq<Extension>, at: seq<nat>, i: nat)
    requires i < |offers| && Agreed(offers[..i], extensions, at)
    requires offers[i].Some? ==> Serves(extensions, offers[i].value.rsvIndex)
    ensures Agreed(offers[..i + 1], extensions, at)
  {
    forall j | 0 <= j < i + 1 && offers[j].Some?
      ensures ServedBy(extensions, at, offers[j].value.rsvIndex, j)
    {
      if j < i {
        hide ServedBy;
        assert offers[..i][j].Some?;
      } else {
        var k :| 0 <= k < |extensions| && extensions[k].rsvIndex == offers[i].value.rsvIndex;
        assert at[k] < |offers[..i]|;
      }
    }
    hide ServedBy, Serves;
    forall k | 0 <= k < |at|
      ensures at[k] < |offers[..i + 1]| && offers[..i + 1][at[k]] == Some(extensions[k])
    {
      assert at[k] < |offers[..i]| && offers[..i][at[k]] == Some(extensions[k]);
    }
  }

  lemma AgreedTake(offers: seq<Option<Extension>>, extensions: seq<Extension>, at: seq<nat>, i: nat)
    requires i < |offers| && Agreed(offers[..i], extensions, at)
    requires offers[i].Some? && !Serves(extensions, offers[i].value.rsvIndex)
    ensures Agreed(offers[..i + 1], extensions + [offers[i].value], at + [i])
  {
    var exts', at' := extensions + [offers[i].value], at + [i];
    forall j | 0 <= j < i + 1 && offers[j].Some?
      ensures ServedBy(exts', at', offers[j].value.rsvIndex, j)
    {
      if j < i {
        assert offers[..i][j].Some? && ServedBy(extensions, at, offers[j].value.rsvIndex, j);
        var k :| 0 <= k < |at| && at[k] <= j && extensions[k].rsvIndex == offers[j].value.rsvIndex;
        assert at'[k] == at[k] && exts'[k] == extensions[k];
      } else {
        assert at'[|at|] == i && exts'[|at|] == offers[i].value;
      }
    }
  }

  /** Taking an extension serves its bit and no other. */
  lemma ServesTake(extensions: seq<Extension>, e: Extension, r: RsvIndex)
    ensures Serves(extensions + [e], r) <==> Serves(extensions, r) || e.rsvIndex == r
  {
    var exts' := extensions + [e];
    if Serves(extensions, r) {
      var k :| 0 <= k < |extensions| && extensions[k].rsvIndex == r;
      assert exts'[k] == extensions[k];
    }
    assert exts'[|extensions|] == e;
  }

  /** Keeps each known offer whose RSV bit is still free. The offers are the header's options,
      looked up by name. */
  method ProcessExtensions(offers: seq<Option<Extension>>) returns (extensions: seq<Extension>)
    ensures exists at :: Agreed(offers, extensions, at)
  {
    var rsv := NO_RSV;
    ghost var at: seq<nat> := [];
    extensions := [];
    var i := 0;
    while i < |offers|
      invariant i <= |offers|
      invariant Agreed(offers[..i], extensions, at)
      invariant forall r: RsvIndex :: rsv.Get(r) <==> Serves(extensions, r)
    {
      hide Agreed, Serves;
      var pme := offers[i];
      if pme.Some? && !rsv.Get(pme.value.rsvIndex) {
        AgreedTake(offers, extensions, at, i);
        forall r: RsvIndex {
          ServesTake(extensions, pme.value, r);
        }
        rsv := rsv.Set(pme.value.rsvIndex);
        extensions := extensions + [pme.value];
        at := at + [i];
      } else {
        AgreedSkip(offers, extensions, at, i);
      }
      i := i + 1;
    }
    assert offers[..i] == offers;
  }
}

/** Frames, their wire format and an independent reading of a byte prefix (ws/ws_frame.h). */
module Frames {
  import opened ByteArrays

  type Opcode = x: int | 0 <= x < 16

  const CONTINUATION: Opcode := 0
  const TEXT: Opcode := 1
  const BINARY: Opcode := 2
  const CONNECTION_CLOSE: Opcode := 8
  const PING: Opcode := 9
  const PONG: Opcode := 10
  const UINT16_MAX: nat := 0xFFFF
  const UINT64_SPAN: nat := 0x1_0000_0000_0000_0000

  datatype Rsv = Rsv(rsv1: bool, rsv2: bool, rsv3: bool) {
    predicate Any() { rsv1 || rsv2 || rsv3 }

    /** The flag with index i, counted from 0 as the extensions do. */
    predicate Get(i: nat)
      requires i < 3
    {
      if i == 0 then rsv1 else if i == 1 then rsv2 else rsv3
    }

    function Set(i: nat): Rsv
      requires i < 3
    {
      if i == 0 then this.(rsv1 := true) else if i == 1 then this.(rsv2 := true) else this.(rsv3 := true)
    }
  }

  const NO_RSV := Rsv(false, false, false)

  datatype Header = Header(fin: bool, rsv: Rsv, opcode: Opcode, mask: bool)

  datatype Frame = Frame(header: Header, maskKey: Bytes, payload: Bytes) {
    predicate IsControl() {
      header.opcode == CONNECTION_CLOSE || header.opcode == PING || header.opcode == PONG
    }

    predicate IsClose() { header.opcode == CONNECTION_CLOSE }

    /** Unmasked, as everything this server writes is. */
    predicate Plain() { !header.mask && maskKey == [] }

    /** The key is there exactly when the mask bit says so. */
    predicate KeyFits() { |maskKey| == if header.mask then 4 else 0 }
  }

  /** A frame after `init`: no RSV bits, no mask, no payload yet. */
  function InitFrame(opcode: Opcode, fin: bool): Frame {
    Frame(Header(fin, NO_RSV, opcode, false), [], [])
  }

  /** A control frame of this side: final, no RSV bits, no mask. */
  function ControlFrame(opcode: Opcode, payload: Bytes): Frame {
    Frame(Header(true, Rsv(false, false, false), opcode, false), [], payload)
  }

  /** The frame as it travels: a masked frame carries its payload XORed with the key. */
  function OnWire(f: Frame): Frame
    requires f.KeyFits()
  {
    if f.header.mask then f.(payload := Masked(f.maskKey, f.payload)) else f
  }

  // ---- Printing -------------------------------------------------------------

  function Bit(b: bool): nat { if b then 1 else 0 }

  function FirstByte(h: Header): byte {
    128 * Bit(h.fin) + 64 * Bit(h.rsv.rsv1) + 32 * Bit(h.rsv.rsv2) + 16 * Bit(h.rsv.rsv3) + h.opcode
  }

  function SecondByte(h: Header, length7: nat): byte
    requires length7 < 128
  {
    128 * Bit(h.mask) + length7
  }

  /** Which of the three length forms a payload of this length takes. */
  function Length7(length: nat): (l: nat)
    ensures l < 128
  {
    if length <= 125 then length else if length <= UINT16_MAX then 126 else 127
  }

  function LengthBytes(length7: nat): nat {
    if length7 <= 125 then 0 else if length7 == 126 then 2 else 8
  }

  /** The wire bytes of a frame whose length field is written in the form `length7`. */
  function EncodeAs(f: Frame, length7: nat): Bytes
    requires length7 < 128
  {
    [FirstByte(f.header), SecondByte(f.header, length7)]
    + BigEndian(|f.payload| % UINT64_SPAN, LengthBytes(length7))
    + (if f.header.mask then f.maskKey else [])
    + f.payload
  }

  function Encode(f: Frame): Bytes {
    EncodeAs(f, Length7(|f.payload|))
  }

  function EncodeEach(fs: seq<Frame>): (parts: seq<Bytes>)
    ensures |parts| == |fs|
  {
    seq(|fs|, i requires 0 <= i < |fs| => Encode(fs[i]))
  }

  /** The bytes of a whole sequence of frames. */
  function EncodeAll(fs: seq<Frame>): Bytes {
    Flatten(EncodeEach(fs))
  }

  lemma EncodeAllConcat(a: seq<Frame>, b: seq<Frame>)
    ensures EncodeAll(a + b) == EncodeAll(a) + EncodeAll(b)
  {
    assert EncodeEach(a + b) == EncodeEach(a) + EncodeEach(b);
    FlattenConcat(EncodeEach(a), EncodeEach(b));
  }

  lemma EncodeAllFirst(fs: seq<Frame>)
    requires fs != []
    ensures EncodeAll(fs) == Encode(fs[0]) + EncodeAll(fs[1..])
  {
    assert EncodeEach(fs)[1..] == EncodeEach(fs[1..]);
  }

  lemma EncodeAllOne(f: Frame)
    ensures EncodeAll([f]) == Encode(f)
  {
    EncodeAllFirst([f]);
  }

  /** Builds the output buffer by appends, as the printer does. */
  method ToBytes(frame: Frame) returns (bytes: Bytes)
    ensures bytes == Encode(frame)
  {
    var length := |frame.payload|;
    assert BigEndian(length % UINT64_SPAN, 0) == [];
    hide FirstByte, SecondByte, BigEndian;
    var buffer: Bytes := [];
    var length7 := 0;
    if length <= 125 {
      length7 := length;
    } else if length <= UINT16_MAX {
      length7 := 126;
      buffer := ByteArrays.ToBytes(length, 2);
    } else {
      length7 := 127;
      buffer := ByteArrays.ToBytes(length % UINT64_SPAN, 8);
    }
    bytes := [FirstByte(frame.header), SecondByte(frame.header, length7)];
    bytes := bytes + buffer;
    if frame.header.mask {
      bytes := bytes + frame.maskKey;
    }
    bytes := bytes + frame.payload;
    assert length <= UINT16_MAX ==> length % UINT64_SPAN == length;
    assert bytes + [] == bytes;
  }

  // ---- Reading --------------------------------------------------------------

  function HeaderOf(b0: byte, b1: byte): Header {
    Header(b0 >= 128, Rsv(b0 / 64 % 2 == 1, b0 / 32 % 2 == 1, b0 / 16 % 2 == 1), b0 % 16, b1 >= 128)
  }

  /** What a byte prefix says: not a whole frame yet, a whole frame of `size` bytes,
      or an error found when `at` bytes had been read. */
  datatype DecodeResult = Need | Got(frame: Frame, size: nat) | Bad(at: nat)

  /** The smallest length a parser accepts in the two extended forms. */
  function LeastLength(length7: nat): nat {
    if length7 == 126 then 126 else UINT16_MAX
  }

  /** Reads key and payload once the length is known. */
  function DecodeBody(s: Bytes, h: Header, start: nat, length: nat): DecodeResult {
    var body := start + if h.mask then 4 else 0;
    if |s| < body + length then Need
    else
      var key := s[start..body];
      var wire := s[body..body + length];
      Got(Frame(h, key, if h.mask then Masked(key, wire) else wire), body + length)
  }

  function Decode(max: nat, s: Bytes): DecodeResult {
    if |s| < 2 then Need
    else
      var length7 := s[1] % 128;
      var lb := LengthBytes(length7);
      if max < length7 then Bad(2)
      else if |s| < 2 + lb then Need
      else
        var length := if lb == 0 then length7 else Value(s[2..2 + lb]);
        if lb > 0 && (max < length || length < LeastLength(length7)) then Bad(2 + lb)
        else DecodeBody(s, HeaderOf(s[0], s[1]), 2 + lb, length)
  }

  /** Header and length are in and acceptable: key and payload start there. */
  predicate HeadIs(max: nat, s: Bytes, h: Header, start: nat, length: nat) {
    && |s| >= 2 && s[1] % 128 <= max && h == HeaderOf(s[0], s[1])
    && start == 2 + LengthBytes(s[1] % 128) && start <= |s|
    && length == (if start == 2 then s[1] % 128 else Value(s[2..start]))
    && (start > 2 ==> LeastLength(s[1] % 128) <= length <= max)
  }

  lemma HeadDecides(max: nat, s: Bytes, h: Header, start: nat, length: nat)
    requires HeadIs(max, s, h, start, length)
    ensures Decode(max, s) == DecodeBody(s, h, start, length)
  {
    hide DecodeBody, HeaderOf, Value, LengthBytes, LeastLength;
  }

  lemma SliceStable(a: Bytes, b: Bytes, i: nat, j: nat)
    requires i <= j <= |a|
    ensures (a + b)[i..j] == a[i..j]
  {
  }

  lemma HeadKept(max: nat, s: Bytes, more: Bytes, h: Header, start: nat, length: nat)
    requires HeadIs(max, s, h, start, length)
    ensures HeadIs(max, s + more, h, start, length)
  {
    hide HeaderOf, Value, LengthBytes, LeastLength;
    SliceStable(s, more, 2, start);
  }

  lemma HeadFound(max: nat, s: Bytes) returns (h: Header, start: nat, length: nat)
    requires Decode(max, s).Got? || (Decode(max, s).Need? && |s| >= 10)
    ensures HeadIs(max, s, h, start, length)
  {
    h, start := HeaderOf(s[0], s[1]), 2 + LengthBytes(s[1] % 128);
    length := if start == 2 then s[1] % 128 else Value(s[2..start]);
    hide HeaderOf, Value, DecodeBody, LeastLength;
  }

  lemma BodyCompleted(s: Bytes, h: Header, start: nat, length: nat) returns (more: Bytes)
    requires DecodeBody(s, h, start, length).Need?
    ensures var d := DecodeBody(s + more, h, start, length);
            d.Got? && d.size == |s + more|
  {
    hide Masked;
    more := seq(start + (if h.mask then 4 else 0) + length - |s|, _ => 0);
  }

  /** Once its length field is in, a prefix that asks for more is the beginning of a frame. */
  lemma NeedCanComplete(max: nat, s: Bytes) returns (more: Bytes)
    requires Decode(max, s).Need? && |s| >= 10
    ensures Decode(max, s + more).Got? && Decode(max, s + more).size == |s + more|
  {
    hide *;
    var h, start, length := HeadFound(max, s);
    HeadDecides(max, s, h, start, length);
    more := BodyCompleted(s, h, start, length);
    HeadKept(max, s, more, h, start, length);
    HeadDecides(max, s + more, h, start, length);
  }

  lemma BodyIs(s: Bytes, h: Header, start: nat, length: nat)
    requires DecodeBody(s, h, start, length).Got? && h.mask
    ensures start + 4 + length <= |s|
    ensures DecodeBody(s, h, start, length)
         == Got(Frame(h, s[start..start + 4], Masked(s[start..start + 4], s[start + 4..start + 4 + length])),
                start + 4 + length)
  {
    hide Masked;
  }

  lemma BodyHeader(s: Bytes, h: Header, start: nat, length: nat)
    ensures DecodeBody(s, h, start, length).Got? ==> DecodeBody(s, h, start, length).frame.header == h
  {
    hide Masked;
  }

  lemma SliceAt(s: Bytes, i: nat, j: nat, k: nat)
    requires i + k < j <= |s|
    ensures s[i..j][k] == s[i + k]
  {
  }

  /** A masked frame gets the wire's payload with each byte XORed with the byte of the key before it that stands at
      the same position modulo four. */
  lemma UnmaskedByKey(max: nat, s: Bytes)
    requires Decode(max, s).Got? && Decode(max, s).frame.header.mask
    ensures var payload, size := Decode(max, s).frame.payload, Decode(max, s).size;
            && 4 + |payload| <= size <= |s|
            && forall i :: 0 <= i < |payload| ==>
                             IsXor(payload[i], s[size - |payload| + i], s[size - |payload| - 4 + i % 4])
  {
    hide *;
    var h, start, length := HeadFound(max, s);
    HeadDecides(max, s, h, start, length);
    BodyHeader(s, h, start, length);
    BodyIs(s, h, start, length);
    var body := start + 4;
    var key, wire := s[start..body], s[body..body + length];
    var payload := Decode(max, s).frame.payload;
    MaskedByKey(key, wire);
    forall i | 0 <= i < length ensures IsXor(payload[i], s[body + i], s[start + i % 4]) {
      SliceAt(s, start, body, i % 4);
      SliceAt(s, body, body + length, i);
    }
  }

  lemma DecodeBodyStable(a: Bytes, b: Bytes, h: Header, start: nat, length: nat)
    requires DecodeBody(a, h, start, length).Got?
    ensures DecodeBody(a + b, h, start, length) == DecodeBody(a, h, start, length)
  {
    hide Masked;
    var body := start + if h.mask then 4 else 0;
    SliceStable(a, b, start, body);
    SliceStable(a, b, body, body + length);
  }

  /** Once a prefix is a whole frame or an error, further bytes do not change the verdict. */
  lemma DecodeStable(max: nat, a: Bytes, b: Bytes)
    ensures !Decode(max, a).Need? ==> Decode(max, a + b) == Decode(max, a)
  {
    if !Decode(max, a).Need? {
      assert (a + b)[0] == a[0] && (a + b)[1] == a[1];
      var lb := LengthBytes(a[1] % 128);
      if max >= a[1] % 128 {
        assert (a + b)[2..2 + lb] == a[2..2 + lb];
        if Decode(max, a).Got? {
          var length := if lb == 0 then a[1] % 128 else Value(a[2..2 + lb]);
          DecodeBodyStable(a, b, HeaderOf(a[0], a[1]), 2 + lb, length);
        }
      }
    }
  }

  /** Completing a frame takes at least one more byte. */
  lemma DecodeProgress(max: nat, a: Bytes, b: Bytes)
    requires Decode(max, a).Need? && Decode(max, a + b).Got?
    ensures Decode(max, a + b).size > |a|
  {
    var s := a + b;
    if |a| >= 2 {
      assert s[0] == a[0] && s[1] == a[1];
      var lb := LengthBytes(a[1] % 128);
      if |a| >= 2 + lb {
        assert s[2..2 + lb] == a[2..2 + lb];
      }
    }
  }

  /** A frame is found within the bytes given and ends with its last byte:
      every shorter prefix asks for more. */
  lemma DecodeFits(max: nat, s: Bytes)
    ensures Decode(max, s).Got? ==> 2 <= Decode(max, s).size <= |s|
    ensures Decode(max, s).Bad? ==> 2 <= Decode(max, s).at <= |s|
    ensures Decode(max, s).Got? ==>
              forall k :: 0 <= k < Decode(max, s).size ==> Decode(max, s[..k]).Need?
    ensures Decode(max, s).Bad? ==>
              forall k :: 0 <= k < Decode(max, s).at ==> Decode(max, s[..k]).Need?
  {
    var d := Decode(max, s);
    if !d.Need? {
      var end := if d.Got? then d.size else d.at;
      forall k | 0 <= k < end
        ensures Decode(max, s[..k]).Need?
      {
        var lb := LengthBytes(s[1] % 128);
        if k >= 2 {
          assert s[..k][0] == s[0] && s[..k][1] == s[1];
          if k >= 2 + lb {
            assert s[..k][2..2 + lb] == s[2..2 + lb];
          }
        }
      }
    }
  }

  // ---- The codec ------------------------------------------------------------

  lemma BitsOf(fin: bool, rsv1: bool, rsv2: bool, rsv3: bool, opcode: nat)
    requires opcode < 16
    ensures var n := 128 * Bit(fin) + 64 * Bit(rsv1) + 32 * Bit(rsv2) + 16 * Bit(rsv3) + opcode;
            && (n >= 128 <==> fin) && (n / 64 % 2 == 1 <==> rsv1) && (n / 32 % 2 == 1 <==> rsv2)
            && (n / 16 % 2 == 1 <==> rsv3) && n % 16 == opcode
  {
    var n := 128 * Bit(fin) + 64 * Bit(rsv1) + 32 * Bit(rsv2) + 16 * Bit(rsv3) + opcode;
    assert n / 64 == 2 * Bit(fin) + Bit(rsv1);
    assert n / 32 == 4 * Bit(fin) + 2 * Bit(rsv1) + Bit(rsv2);
    assert n / 16 == 8 * Bit(fin) + 4 * Bit(rsv1) + 2 * Bit(rsv2) + Bit(rsv3);
  }

  lemma HeaderBits(h: Header, length7: nat)
    requires length7 < 128
    ensures HeaderOf(FirstByte(h), SecondByte(h, length7)) == h
    ensures SecondByte(h, length7) % 128 == length7
  {
    BitsOf(h.fin, h.rsv.rsv1, h.rsv.rsv2, h.rsv.rsv3, h.opcode);
    hide Bit;
  }

  lemma HeaderBitsBack(b0: byte, b1: byte)
    ensures FirstByte(HeaderOf(b0, b1)) == b0
    ensures SecondByte(HeaderOf(b0, b1), b1 % 128) == b1
  {
  }

  /** The length form used for a payload is one the parser takes for that length. */
  ghost predicate FormFits(length: nat, length7: nat) {
    length7 == Length7(length) || (length == UINT16_MAX && length7 == 127)
  }

  /** Where the five parts of a frame followed by anything else lie. */
  lemma FrameParts(b0: byte, b1: byte, field: Bytes, key: Bytes, wire: Bytes, rest: Bytes)
    ensures var s := [b0, b1] + field + key + wire + rest;
            var k := 2 + |field|;
            var p := k + |key|;
            && s[0] == b0 && s[1] == b1 && s[2..k] == field && s[k..p] == key
            && s[p..p + |wire|] == wire && |s| == p + |wire| + |rest|
  {
  }

  lemma LengthFieldValue(length: nat, length7: nat)
    requires FormFits(length, length7) && length < UINT64_SPAN
    ensures LengthBytes(length7) > 0 ==>
              Value(BigEndian(length % UINT64_SPAN, LengthBytes(length7))) == length >= LeastLength(length7)
    ensures length7 < 128 && (LengthBytes(length7) == 0 ==> length7 == length)
  {
    hide BigEndian, Value, Pow256;
    Pow256Widths();
    assert length % UINT64_SPAN == length;
    if LengthBytes(length7) == 2 {
      ValueOfBigEndian(length, 2);
    } else if LengthBytes(length7) == 8 {
      ValueOfBigEndian(length, 8);
    }
  }

  lemma EncodeAsParts(w: Frame, length7: nat)
    requires length7 < 128 && w.KeyFits()
    ensures EncodeAs(w, length7)
         == [FirstByte(w.header), SecondByte(w.header, length7)]
            + BigEndian(|w.payload| % UINT64_SPAN, LengthBytes(length7)) + w.maskKey + w.payload
  {
  }

  lemma EightByteForm(n: nat)
    requires n <= 0xFFFF_FFFF_FFFF_FFFF
    ensures BigEndian(n, 8)
         == [n / 0x100_0000_0000_0000, n / 0x1_0000_0000_0000 % 256, n / 0x100_0000_0000 % 256,
             n / 0x1_0000_0000 % 256, n / 0x100_0000 % 256, n / 0x1_0000 % 256, n / 256 % 256, n % 256]
  {
    var a, b, c := n / 256, n / 0x1_0000, n / 0x100_0000;
    var d, e, f, g := n / 0x1_0000_0000, n / 0x100_0000_0000, n / 0x1_0000_0000_0000, n / 0x100_0000_0000_0000;
    assert a / 256 == b && b / 256 == c && c / 256 == d && d / 256 == e && e / 256 == f && f / 256 == g && g < 256;
    LastByte(n, 8);
    LastByte(a, 7);
    LastByte(b, 6);
    LastByte(c, 5);
    LastByte(d, 4);
    LastByte(e, 3);
    LastByte(f, 2);
    LastByte(g, 1);
    assert BigEndian(0, 0) == [];
    hide BigEndian;
    assert g / 256 == 0;
  }

  lemma LengthFieldIs(n: nat)
    requires n <= 0xFFFF_FFFF_FFFF_FFFF
    ensures BigEndian(n % UINT64_SPAN, LengthBytes(Length7(n)))
         == if n <= 125 then []
            else if n <= 0xFFFF then [n / 256, n % 256]
            else [n / 0x100_0000_0000_0000, n / 0x1_0000_0000_0000 % 256, n / 0x100_0000_0000 % 256,
                  n / 0x1_0000_0000 % 256, n / 0x100_0000 % 256, n / 0x1_0000 % 256, n / 256 % 256, n % 256]
  {
    assert n % UINT64_SPAN == n;
    assert BigEndian(n, 0) == [];
    hide BigEndian;
    if 125 < n <= 0xFFFF {
      TwoByteForm(n);
      assert n / 256 % 256 == n / 256;
    } else if n > 0xFFFF {
      EightByteForm(n);
    }
  }

  /** The wire format, section 5.2 of RFC 6455: flags and opcode, the mask bit and one of three length forms, the key
      and the payload. */
  lemma WireFormat(f: Frame)
    requires f.KeyFits() && |f.payload| <= 0xFFFF_FFFF_FFFF_FFFF
    ensures var s, h, n := Encode(f), f.header, |f.payload|;
            && |s| >= 2
            && s[0] == (if h.fin then 128 else 0) + (if h.rsv.rsv1 then 64 else 0) + (if h.rsv.rsv2 then 32 else 0)
                       + (if h.rsv.rsv3 then 16 else 0) + h.opcode
            && s[1] == (if h.mask then 128 else 0) + (if n <= 125 then n else if n <= 0xFFFF then 126 else 127)
            && s[2..] == (if n <= 125 then []
                          else if n <= 0xFFFF then [n / 256, n % 256]
                          else [n / 0x100_0000_0000_0000, n / 0x1_0000_0000_0000 % 256,
                                n / 0x100_0000_0000 % 256, n / 0x1_0000_0000 % 256, n / 0x100_0000 % 256,
                                n / 0x1_0000 % 256, n / 256 % 256, n % 256])
                         + f.maskKey + f.payload
  {
    var n := |f.payload|;
    EncodeAsParts(f, Length7(n));
    LengthFieldIs(n);
    assert 128 * Bit(f.header.mask) == if f.header.mask then 128 else 0;
    hide EncodeAs, BigEndian, LengthBytes;
    ConcatAssoc([FirstByte(f.header), SecondByte(f.header, Length7(n))],
                BigEndian(n % UINT64_SPAN, LengthBytes(Length7(n))), f.maskKey);
    ConcatAssoc([FirstByte(f.header), SecondByte(f.header, Length7(n))],
                BigEndian(n % UINT64_SPAN, LengthBytes(Length7(n))) + f.maskKey, f.payload);
  }

  /** What travels has the same header and key, and unmasks to the payload. */
  lemma WireIs(f: Frame)
    requires f.KeyFits()
    ensures var w := OnWire(f);
            && w.KeyFits() && w.header == f.header && w.maskKey == f.maskKey && |w.payload| == |f.payload|
            && f.payload == if f.header.mask then Masked(f.maskKey, w.payload) else w.payload
  {
    if f.header.mask {
      MaskedTwice(f.maskKey, f.payload);
    }
  }

  lemma DecodeBodyIs(f: Frame, w: Frame, s: Bytes, start: nat)
    requires f.KeyFits() && |w.payload| == |f.payload|
    requires f.payload == if f.header.mask then Masked(f.maskKey, w.payload) else w.payload
    requires var body := start + |f.maskKey|;
             && |s| >= body + |f.payload| && s[start..body] == f.maskKey && s[body..body + |f.payload|] == w.payload
    ensures DecodeBody(s, f.header, start, |f.payload|) == Got(f, start + |f.maskKey| + |f.payload|)
  {
    hide Masked;
  }

  /** A header within the limit and an acceptable length: key and payload are next. */
  lemma DecodeAt(max: nat, s: Bytes, length7: nat, length: nat)
    requires |s| >= 2 + LengthBytes(length7) && s[1] % 128 == length7 <= max
    requires LengthBytes(length7) == 0 ==> length == length7
    requires LengthBytes(length7) > 0 ==>
               Value(s[2..2 + LengthBytes(length7)]) == length && LeastLength(length7) <= length <= max
    ensures Decode(max, s) == DecodeBody(s, HeaderOf(s[0], s[1]), 2 + LengthBytes(length7), length)
  {
    hide DecodeBody, HeaderOf, Value, LeastLength, LengthBytes;
  }

  lemma DecodeOfEncoded(max: nat, f: Frame, length7: nat, rest: Bytes)
    requires f.KeyFits() && |f.payload| <= max && |f.payload| < UINT64_SPAN
    requires FormFits(|f.payload|, length7) && length7 <= max
    ensures Decode(max, EncodeAs(OnWire(f), length7) + rest)
         == Got(f, |EncodeAs(OnWire(f), length7)|)
  {
    var w := OnWire(f);
    var field := BigEndian(|f.payload| % UINT64_SPAN, LengthBytes(length7));
    WireIs(f);
    EncodeAsParts(w, length7);
    FrameParts(FirstByte(f.header), SecondByte(f.header, length7), field, f.maskKey, w.payload, rest);
    HeaderBits(f.header, length7);
    LengthFieldValue(|f.payload|, length7);
    hide *;
    var s := EncodeAs(w, length7) + rest;
    DecodeAt(max, s, length7, |f.payload|);
    DecodeBodyIs(f, w, s, 2 + |field|);
  }

  /** A printed frame that is longer than the limit is refused. */
  lemma LongFrameRefused(max: nat, f: Frame, rest: Bytes)
    requires f.KeyFits() && max < |f.payload| < UINT64_SPAN
    ensures Decode(max, Encode(f) + rest).Bad?
  {
    hide BigEndian, Value, FirstByte, SecondByte, HeaderOf, DecodeBody;
    var length7 := Length7(|f.payload|);
    var field := BigEndian(|f.payload| % UINT64_SPAN, LengthBytes(length7));
    EncodeAsParts(f, length7);
    FrameParts(FirstByte(f.header), SecondByte(f.header, length7), field, f.maskKey, f.payload, rest);
    HeaderBits(f.header, length7);
    LengthFieldValue(|f.payload|, length7);
    hide EncodeAs;
  }

  /** Printing then parsing gives the frame back and stops exactly at its end, whatever follows.
      The 127 marker byte itself must pass the parser's first size test, which any longer payload implies. */
  lemma RoundTrip(max: nat, f: Frame, rest: Bytes)
    requires f.KeyFits() && |f.payload| <= max && |f.payload| < UINT64_SPAN
    ensures Decode(max, Encode(OnWire(f)) + rest) == Got(f, |Encode(OnWire(f))|)
    ensures forall k :: 0 <= k < |Encode(OnWire(f))| ==> Decode(max, Encode(OnWire(f))[..k]).Need?
  {
    DecodeOfEncoded(max, f, Length7(|f.payload|), rest);
    var enc := Encode(OnWire(f));
    DecodeOfEncoded(max, f, Length7(|f.payload|), []);
    assert enc + [] == enc;
    DecodeFits(max, enc);
  }

  lemma SplitFour(s: Bytes, i: nat, j: nat, n: nat)
    requires 2 <= i <= j <= n <= |s|
    ensures s[..n] == [s[0], s[1]] + s[2..i] + s[i..j] + s[j..n]
  {
  }

  lemma FieldValue(field: Bytes)
    requires |field| == 2 || |field| == 8
    ensures Value(field) < UINT64_SPAN && (|field| == 2 ==> Value(field) <= UINT16_MAX)
    ensures BigEndian(Value(field) % UINT64_SPAN, |field|) == field
  {
    var v := Value(field);
    assert v < UINT64_SPAN && (|field| == 2 ==> v <= UINT16_MAX) by {
      Pow256Widths();
      BigEndianOfValue(field);
    }
    assert v % UINT64_SPAN == v;
    assert BigEndian(v, |field|) == field by {
      BigEndianOfValue(field);
    }
  }

  lemma AcceptedLength(max: nat, s: Bytes, f: Frame, n: nat)
    requires Decode(max, s) == Got(f, n)
    ensures n <= |s| && f.KeyFits() && |f.payload| <= max && |f.payload| < UINT64_SPAN
    ensures FormFits(|f.payload|, s[1] % 128)
    ensures s[2..2 + LengthBytes(s[1] % 128)] == BigEndian(|f.payload| % UINT64_SPAN, LengthBytes(s[1] % 128))
  {
    var lb := LengthBytes(s[1] % 128);
    var field := s[2..2 + lb];
    if lb == 0 {
      assert field == BigEndian(|f.payload| % UINT64_SPAN, 0);
    } else {
      assert |f.payload| == Value(field);
      FieldValue(field);
    }
  }

  lemma AcceptedBody(s: Bytes, h: Header, start: nat, length: nat)
    requires start <= |s| && DecodeBody(s, h, start, length).Got?
    ensures var f := DecodeBody(s, h, start, length).frame;
            var n := DecodeBody(s, h, start, length).size;
            var body := start + |f.maskKey|;
            && f.KeyFits() && f.header == h && body <= n <= |s| && |f.payload| == length
            && s[start..body] == f.maskKey && s[body..n] == OnWire(f).payload
  {
    var f := DecodeBody(s, h, start, length).frame;
    var body := start + |f.maskKey|;
    if h.mask {
      MaskedTwice(f.maskKey, s[body..body + length]);
    }
  }

  lemma AcceptedIsEncoded(max: nat, s: Bytes, f: Frame, n: nat)
    requires Decode(max, s) == Got(f, n)
    ensures n <= |s| && f.KeyFits() && |f.payload| <= max && |f.payload| < UINT64_SPAN
    ensures FormFits(|f.payload|, s[1] % 128) && s[..n] == EncodeAs(OnWire(f), s[1] % 128)
  {
    AcceptedLength(max, s, f, n);
    var length7 := s[1] % 128;
    var lb := LengthBytes(length7);
    AcceptedBody(s, HeaderOf(s[0], s[1]), 2 + lb, |f.payload|);
    HeaderBitsBack(s[0], s[1]);
    SplitFour(s, 2 + lb, 2 + lb + |f.maskKey|, n);
    EncodeAsParts(OnWire(f), length7);
  }

  /** Exactly which prefixes are accepted: the printed form of a frame within the limit,
      and the one longer form that lets 65535 through in eight bytes. */
  lemma AcceptedExactly(max: nat, s: Bytes, f: Frame, n: nat)
    ensures Decode(max, s) == Got(f, n) <==>
              && n <= |s| && f.KeyFits() && |f.payload| <= max && |f.payload| < UINT64_SPAN
              && (|| s[..n] == Encode(OnWire(f))
                  || (|f.payload| == UINT16_MAX && s[..n] == EncodeAs(OnWire(f), 127)))
  {
    if Decode(max, s) == Got(f, n) {
      AcceptedIsEncoded(max, s, f, n);
    } else if n <= |s| && f.KeyFits() && |f.payload| <= max && |f.payload| < UINT64_SPAN {
      assert s == s[..n] + s[n..];
      if s[..n] == Encode(OnWire(f)) {
        DecodeOfEncoded(max, f, Length7(|f.payload|), s[n..]);
      } else if |f.payload| == UINT16_MAX && s[..n] == EncodeAs(OnWire(f), 127) {
        DecodeOfEncoded(max, f, 127, s[n..]);
      }
    }
  }

  /** A frame with a second form: 65535 bytes with an eight-byte length. */
  lemma LongFormTaken(max: nat, zeros: Bytes)
    requires max >= UINT16_MAX && |zeros| == UINT16_MAX
    ensures var f := InitFrame(BINARY, true).(payload := zeros);
            EncodeAs(f, 127) != Encode(f) && Decode(max, EncodeAs(f, 127)) == Got(f, UINT16_MAX + 10)
  {
    hide BigEndian, Decode;
    var f := InitFrame(BINARY, true).(payload := zeros);
    DecodeOfEncoded(max, f, 127, []);
    assert EncodeAs(f, 127) + [] == EncodeAs(f, 127);
    assert |EncodeAs(f, 127)| == UINT16_MAX + 10 && |Encode(f)| == UINT16_MAX + 4;
  }
}

/** UTF-8 validation, both overloads (util/utf8.h), against section 3 of RFC 3629. */
module Utf8 {
  import opened ByteArrays

  // ---- The standard ---------------------------------------------------------------

  /** A Unicode scalar value: a code point that is no surrogate. */
  type Scalar = x: nat | x <= 0x10FFFF && !(0xD800 <= x <= 0xDFFF)

  function EncodeScalar(cp: Scalar): (s: Bytes)
    ensures 1 <= |s| <= 4
  {
    if cp <= 0x7F then [cp]
    else if cp <= 0x7FF then [0xC0 + cp / 64, 0x80 + cp % 64]
    else if cp <= 0xFFFF then [0xE0 + cp / 4096, 0x80 + cp / 64 % 64, 0x80 + cp % 64]
    else [0xF0 + cp / 262144, 0x80 + cp / 4096 % 64, 0x80 + cp / 64 % 64, 0x80 + cp % 64]
  }

  function EncodeText(cps: seq<Scalar>): Bytes {
    if cps == [] then [] else EncodeScalar(cps[0]) + EncodeText(cps[1..])
  }

  /** The bytes are the encoding of some sequence of scalar values. */
  ghost predicate IsUtf8(s: Bytes) {
    exists cps: seq<Scalar> :: EncodeText(cps) == s
  }

  // ---- Reading one code point ---------------------------------------------------------

  /** The length a first byte announces, 0 if it cannot be one. */
  function Width(b: byte): (n: nat)
    ensures n <= 4
  {
    if b < 0x80 then 1
    else if 0xC0 <= b < 0xE0 then 2
    else if 0xE0 <= b < 0xF0 then 3
    else if 0xF0 <= b < 0xF8 then 4
    else 0
  }

  function LeadBits(b: byte): nat {
    match Width(b)
    case 1 => b
    case 2 => b % 32
    case 3 => b % 16
    case _ => b % 8
  }

  /** The six payload bits of a continuation byte. */
  function Low6(b: byte): nat { b % 64 }

  predicate IsContinuation(b: byte) { 0x80 <= b < 0xC0 }

  /** The code point bits of the first k bytes. */
  function Partial(s: Bytes, k: nat): nat
    requires 1 <= k <= |s|
  {
    if k == 1 then LeadBits(s[0]) else Partial(s, k - 1) * 64 + Low6(s[k - 1])
  }

  /** The value may be written in this many bytes. */
  predicate InRange(cp: nat, num: nat) {
    !(|| cp > 0x10FFFF
      || (cp >= 0xD800 && cp <= 0xDFFF)
      || (cp <= 0x007F && num != 1)
      || (cp >= 0x0080 && cp <= 0x07FF && num != 2)
      || (cp >= 0x0800 && cp <= 0xFFFF && num != 3)
      || (cp >= 0x10000 && cp <= 0x1FFFFF && num != 4))
  }

  /** The outcome of reading one code point at the start of the memory. */
  datatype Read = Char(cp: Scalar, size: nat) | Bad | PastEnd

  /** Continuation bytes from position k on. */
  function ReadRest(s: Bytes, k: nat): Read
    requires 1 <= k <= |s| && k <= Width(s[0])
    decreases Width(s[0]) - k
  {
    if k == Width(s[0]) then
      var cp := Partial(s, k);
      if InRange(cp, k) then Char(cp, k) else Bad
    else if k == |s| then PastEnd
    else if !IsContinuation(s[k]) then Bad
    else ReadRest(s, k + 1)
  }

  function ReadOne(s: Bytes): Read {
    if s == [] then PastEnd
    else if Width(s[0]) == 0 then Bad
    else ReadRest(s, 1)
  }

  /** Reading the continuation bytes succeeds exactly if they are all there and the value is in range. */
  lemma {:induction false} ReadRestExactly(s: Bytes, k: nat)
    requires 1 <= k <= |s| && k <= Width(s[0])
    ensures var n := Width(s[0]);
            && (ReadRest(s, k).Char? <==>
                  |s| >= n && (forall i :: k <= i < n ==> IsContinuation(s[i])) && InRange(Partial(s, n), n))
            && (ReadRest(s, k).Char? ==> ReadRest(s, k) == Char(Partial(s, n), n))
    decreases Width(s[0]) - k
  {
    hide InRange;
    if k < Width(s[0]) && k < |s| && IsContinuation(s[k]) {
      ReadRestExactly(s, k + 1);
    }
  }

  lemma PartialIs(s: Bytes, k: nat)
    requires 1 <= k <= |s|
    ensures k == 1 ==> Partial(s, k) == LeadBits(s[0])
    ensures k == 2 ==> Partial(s, k) == LeadBits(s[0]) * 64 + Low6(s[1])
    ensures k == 3 ==> Partial(s, k) == (LeadBits(s[0]) * 64 + Low6(s[1])) * 64 + Low6(s[2])
    ensures k == 4 ==> Partial(s, k) == ((LeadBits(s[0]) * 64 + Low6(s[1])) * 64 + Low6(s[2])) * 64 + Low6(s[3])
  {
    hide LeadBits;
    if k == 3 {
      assert Partial(s, 2) == Partial(s, 1) * 64 + Low6(s[1]);
    } else if k == 4 {
      assert Partial(s, 2) == Partial(s, 1) * 64 + Low6(s[1]);
      assert Partial(s, 3) == Partial(s, 2) * 64 + Low6(s[2]);
    }
  }

  lemma TwoBytes(cp: nat, b0: byte, b1: byte)
    ensures && Width(b0) == 2 && IsContinuation(b1) && cp == LeadBits(b0) * 64 + Low6(b1) && InRange(cp, 2)
        <==> 0x7F < cp <= 0x7FF && b0 == 0xC0 + cp / 64 && b1 == 0x80 + cp % 64
  {
  }

  lemma Digits(cp: nat, high: nat, low: nat)
    requires low < 64
    ensures cp == high * 64 + low <==> cp / 64 == high && cp % 64 == low
  {
  }

  lemma ThreeBytes(cp: nat, b0: byte, b1: byte, b2: byte)
    ensures && Width(b0) == 3 && IsContinuation(b1) && IsContinuation(b2)
            && cp == (LeadBits(b0) * 64 + Low6(b1)) * 64 + Low6(b2) && InRange(cp, 3)
        <==> && 0x7FF < cp <= 0xFFFF && !(0xD800 <= cp <= 0xDFFF)
             && b0 == 0xE0 + cp / 4096 && b1 == 0x80 + cp / 64 % 64 && b2 == 0x80 + cp % 64
  {
    assert cp / 64 / 64 == cp / 4096;
    Digits(cp, LeadBits(b0) * 64 + Low6(b1), Low6(b2));
    Digits(cp / 64, LeadBits(b0), Low6(b1));
  }

  lemma Contin(b: byte)
    ensures IsContinuation(b) <==> b == 0x80 + Low6(b)
  {
  }

  lemma FourBytes(cp: nat, b0: byte, b1: byte, b2: byte, b3: byte)
    ensures && Width(b0) == 4 && IsContinuation(b1) && IsContinuation(b2) && IsContinuation(b3)
            && cp == ((LeadBits(b0) * 64 + Low6(b1)) * 64 + Low6(b2)) * 64 + Low6(b3) && InRange(cp, 4)
        <==> && 0xFFFF < cp <= 0x10FFFF && b0 == 0xF0 + cp / 262144 && b1 == 0x80 + cp / 4096 % 64
             && b2 == 0x80 + cp / 64 % 64 && b3 == 0x80 + cp % 64
  {
    assert cp / 64 / 64 == cp / 4096 && cp / 4096 / 64 == cp / 262144;
    Digits(cp, (LeadBits(b0) * 64 + Low6(b1)) * 64 + Low6(b2), Low6(b3));
    Digits(cp / 64, LeadBits(b0) * 64 + Low6(b1), Low6(b2));
    Digits(cp / 4096, LeadBits(b0), Low6(b1));
    Contin(b1);
    Contin(b2);
    Contin(b3);
    assert Width(b0) == 4 <==> b0 == 0xF0 + LeadBits(b0) && 0xF0 <= b0;
    hide Low6, IsContinuation, LeadBits, Width;
  }

  lemma OneByte(cp: nat, b0: byte)
    ensures Width(b0) == 1 && cp == b0 && InRange(cp, 1) <==> cp <= 0x7F && b0 == cp
  {
  }

  lemma LeadBitsOf(b: byte)
    ensures Width(b) == 1 ==> LeadBits(b) == b
    ensures Width(b) == 2 ==> LeadBits(b) == b % 32
    ensures Width(b) == 3 ==> LeadBits(b) == b % 16
    ensures Width(b) == 4 ==> LeadBits(b) == b % 8
  {
  }

  /** The first bytes are the encoding of a scalar value exactly if they announce its length, go on with
      continuation bytes and join to it. */
  lemma EncodedShape(s: Bytes, cp: Scalar)
    requires s != [] && |EncodeScalar(cp)| <= |s|
    ensures var e := EncodeScalar(cp);
            var n := |e|;
            (forall k :: 0 <= k < n ==> s[k] == e[k]) <==>
              && Width(s[0]) == n && (forall i :: 1 <= i < n ==> IsContinuation(s[i]))
              && Partial(s, n) == cp && InRange(cp, n)
  {
    hide Partial, Width, LeadBits, InRange, IsContinuation;
    var n := |EncodeScalar(cp)|;
    PartialIs(s, n);
    LeadBitsOf(s[0]);
    if n == 1 {
      OneByte(cp, s[0]);
    } else if n == 2 {
      TwoBytes(cp, s[0], s[1]);
    } else if n == 3 {
      ThreeBytes(cp, s[0], s[1], s[2]);
    } else {
      FourBytes(cp, s[0], s[1], s[2], s[3]);
    }
  }

  lemma EncodedIsRead(s: Bytes, cp: Scalar)
    requires EncodeScalar(cp) <= s
    ensures ReadOne(s) == Char(cp, |EncodeScalar(cp)|)
  {
    var e := EncodeScalar(cp);
    assert forall k :: 0 <= k < |e| ==> s[k] == e[k];
    EncodedShape(s, cp);
    ReadRestExactly(s, 1);
  }

  lemma InRangeMeansWidth(cp: nat, n: nat)
    requires InRange(cp, n) && 1 <= n <= 4
    ensures cp <= 0x10FFFF && !(0xD800 <= cp <= 0xDFFF) && |EncodeScalar(cp)| == n
  {
  }

  lemma ReadIsEncoded(s: Bytes)
    requires ReadOne(s).Char?
    ensures EncodeScalar(ReadOne(s).cp) <= s && 1 <= ReadOne(s).size == |EncodeScalar(ReadOne(s).cp)|
  {
    hide InRange, Partial;
    ReadRestExactly(s, 1);
    var n := Width(s[0]);
    InRangeMeansWidth(Partial(s, n), n);
    EncodedShape(s, ReadOne(s).cp);
  }

  /** Reading gives a character exactly when the bytes start with its encoding. */
  lemma ReadOneExactly(s: Bytes, cp: Scalar)
    ensures EncodeScalar(cp) <= s ==> ReadOne(s) == Char(cp, |EncodeScalar(cp)|)
    ensures ReadOne(s).Char? ==>
              && EncodeScalar(ReadOne(s).cp) <= s && ReadOne(s).size == |EncodeScalar(ReadOne(s).cp)|
  {
    if EncodeScalar(cp) <= s {
      EncodedIsRead(s, cp);
    }
    if ReadOne(s).Char? {
      ReadIsEncoded(s);
    }
  }

  /** A text is UTF-8 exactly when it is empty or starts with a character and goes on as UTF-8. */
  lemma Utf8Step(s: Bytes)
    requires s != []
    ensures IsUtf8(s) <==> ReadOne(s).Char? && ReadOne(s).size <= |s| && IsUtf8(s[ReadOne(s).size..])
  {
    if IsUtf8(s) {
      var cps: seq<Scalar> :| EncodeText(cps) == s;
      var e := EncodeScalar(cps[0]);
      assert s[..|e|] == e;
      EncodedIsRead(s, cps[0]);
      assert EncodeText(cps[1..]) == s[|e|..];
    }
    if ReadOne(s).Char? && ReadOne(s).size <= |s| && IsUtf8(s[ReadOne(s).size..]) {
      ReadIsEncoded(s);
      var cps: seq<Scalar> :| EncodeText(cps) == s[ReadOne(s).size..];
      var all := [ReadOne(s).cp] + cps;
      assert all[1..] == cps;
      assert EncodeText(all) == s;
    }
  }

  // ---- The NUL-terminated overload ------------------------------------------------------

  /** Where the string ends: at its first zero byte. */
  function FirstNul(s: Bytes): (n: nat)
    requires 0 in s
    ensures n < |s| && s[n] == 0
    ensures forall k :: 0 <= k < n ==> s[k] != 0
  {
    if s[0] == 0 then 0 else 1 + FirstNul(s[1..])
  }

  lemma {:induction false} SamePartial(s: Bytes, t: Bytes, k: nat)
    requires 1 <= k <= |t| && t <= s
    ensures Partial(s, k) == Partial(t, k)
  {
    if k <= 1 {
    } else {
      SamePartial(s, t, k - 1);
    }
  }

  /** Reading one code point does not notice that the text ends at a zero byte instead of the memory. */
  lemma {:induction false} StopsAtNul(s: Bytes, k: nat)
    requires 0 in s && s[0] != 0
    requires 1 <= k <= FirstNul(s) && k <= Width(s[0])
    ensures var t := s[..FirstNul(s)];
            && (ReadRest(s, k).Char? <==> ReadRest(t, k).Char?)
            && (ReadRest(s, k).Char? ==> ReadRest(s, k) == ReadRest(t, k))
    decreases Width(s[0]) - k
  {
    var n := FirstNul(s);
    var t := s[..n];
    if k == Width(s[0]) {
      SamePartial(s, t, k);
    } else if k < n {
      assert t[k] == s[k];
      if IsContinuation(s[k]) {
        StopsAtNul(s, k + 1);
      }
    }
  }

  lemma EmptyIsUtf8()
    ensures IsUtf8([])
  {
    assert EncodeText([]) == [];
  }

  lemma NulFrom(s: Bytes, i: nat)
    requires 0 in s && i <= FirstNul(s)
    ensures 0 in s[i..] && FirstNul(s[i..]) == FirstNul(s) - i
    decreases i
  {
    var n := FirstNul(s);
    assert s[i..][n - i] == 0;
    var m := FirstNul(s[i..]);
    assert s[i + m] == 0;
    assert forall k :: 0 <= k < n ==> s[..n][k] != 0;
    assert forall k :: 0 <= k < m ==> s[i..][..m][k] != 0;
  }

  lemma StopsAtNulWhole(s: Bytes)
    requires 0 in s && s[0] != 0
    ensures var t := s[..FirstNul(s)];
            && t != []
            && (ReadOne(s).Char? <==> ReadOne(t).Char?)
            && (ReadOne(s).Char? ==> ReadOne(s) == ReadOne(t) && 1 <= ReadOne(s).size <= |t|)
  {
    var t := s[..FirstNul(s)];
    assert t[0] == s[0];
    if Width(s[0]) != 0 {
      StopsAtNul(s, 1);
    }
    if ReadOne(t).Char? {
      ReadIsEncoded(t);
    }
  }

  /** One character of a NUL-terminated text. */
  lemma TextStep(s: Bytes, i: nat)
    requires 0 in s && i < FirstNul(s)
    ensures var text := s[..FirstNul(s)];
            var r := ReadOne(s[i..]);
            && (!r.Char? ==> !IsUtf8(text[i..]))
            && (r.Char? ==> 1 <= r.size <= |text| - i && (IsUtf8(text[i..]) <==> IsUtf8(text[i + r.size..])))
  {
    hide IsUtf8, ReadOne;
    var text := s[..FirstNul(s)];
    var rest := s[i..];
    NulFrom(s, i);
    assert rest[..FirstNul(rest)] == text[i..];
    assert rest[0] == text[i] != 0;
    Utf8Step(text[i..]);
    StopsAtNulWhole(rest);
    var r := ReadOne(rest);
    if r.Char? {
      assert text[i..][r.size..] == text[i + r.size..];
    }
  }

  /** One turn of the outer loop: classify the first byte, join the continuation bytes, check the range. */
  method ReadChar(cstring: Bytes, start: nat, ghost nul: nat) returns (read: Read)
    requires 0 in cstring && nul == FirstNul(cstring) && start < nul
    ensures read.Char? <==> ReadOne(cstring[start..]).Char?
    ensures read.Char? ==> read == ReadOne(cstring[start..])
  {
    ghost var rest := cstring[start..];
    var bytes := start;
    var cp: nat, num: nat := 0, 0;
    var b := cstring[bytes];
    assert b == rest[0];
    if b < 0x80 {
      cp, num := b, 1;
    } else if 0xC0 <= b < 0xE0 {
      cp, num := b % 32, 2;
    } else if 0xE0 <= b < 0xF0 {
      cp, num := b % 16, 3;
    } else if 0xF0 <= b < 0xF8 {
      cp, num := b % 8, 4;
    } else {
      return Bad;
    }
    bytes := bytes + 1;
    var i := 1;
    while i < num
      invariant 1 <= i <= num == Width(rest[0]) && bytes == start + i <= nul
      invariant cp == Partial(rest, i)
      invariant ReadOne(rest) == ReadRest(rest, i)
    {
      if !(0x80 <= cstring[bytes] < 0xC0) {
        return Bad;
      }
      assert bytes != nul;
      cp := cp * 64 + Low6(cstring[bytes]);
      bytes := bytes + 1;
      i := i + 1;
    }
    if !InRange(cp, num) {
      return Bad;
    }
    return Char(cp, num);
  }

  /** True exactly when the bytes before the first zero byte are UTF-8. Reading never moves past that
      byte: every read is at or before it. */
  method IsValidUTF8(cstring: Bytes) returns (ok: bool)
    requires 0 in cstring
    ensures ok <==> IsUtf8(cstring[..FirstNul(cstring)])
  {
    hide IsUtf8, ReadOne;
    ghost var nul := FirstNul(cstring);
    ghost var text := cstring[..nul];
    var bytes := 0;
    assert text[0..] == text;
    while cstring[bytes] != 0
      invariant bytes <= nul
      invariant IsUtf8(text) <==> IsUtf8(text[bytes..])
      decreases nul - bytes
    {
      assert bytes != nul;
      TextStep(cstring, bytes);
      var read := ReadChar(cstring, bytes, nul);
      if !read.Char? {
        return false;
      }
      bytes := bytes + read.size;
    }
    assert text[bytes..] == [];
    EmptyIsUtf8();
    return true;
  }

  // ---- The overload with a length ----------------------------------------------------------

  /** `Overread` is a read past the memory given: what it finds there is not the caller's. */
  datatype Verdict = Valid | Invalid | Overread

  /** The length counts code points, not bytes. */
  function LengthVerdict(memory: Bytes, length: nat): Verdict
    decreases length
  {
    if length == 0 then Valid
    else
      match ReadOne(memory)
      case Bad => Invalid
      case PastEnd => Overread
      case Char(_, size) => if size <= |memory| then LengthVerdict(memory[size..], length - 1) else Overread
  }

  method IsValidUTF8Length(memory: Bytes, length: nat) returns (v: Verdict)
    ensures v == LengthVerdict(memory, length)
  {
    var bytes := 0;
    var left: nat := length;
    while left > 0
      invariant left <= length && bytes <= |memory|
      invariant LengthVerdict(memory, length) == LengthVerdict(memory[bytes..], left)
    {
      left := left - 1;
      ghost var rest := memory[bytes..];
      var start := bytes;
      if bytes == |memory| {
        return Overread;
      }
      var b := memory[bytes];
      var num := Width(b);
      var cp: nat := LeadBits(b);
      if num == 0 {
        return Invalid;
      }
      bytes := bytes + 1;
      var i := 1;
      while i < num
        invariant 1 <= i <= num == Width(rest[0]) && bytes == start + i <= |memory|
        invariant cp == Partial(rest, i)
        invariant ReadOne(rest) == ReadRest(rest, i)
      {
        if bytes == |memory| {
          return Overread;
        }
        if !IsContinuation(memory[bytes]) {
          return Invalid;
        }
        cp := cp * 64 + Low6(memory[bytes]);
        bytes := bytes + 1;
        i := i + 1;
      }
      if !InRange(cp, num) {
        return Invalid;
      }
      assert rest[num..] == memory[bytes..];
    }
    return Valid;
  }

  /** The memory starts with the encoding of exactly this many scalar values. */
  ghost predicate StartsWith(memory: Bytes, length: nat) {
    exists cps: seq<Scalar> :: |cps| == length && EncodeText(cps) <= memory
  }

  lemma StartsWithOneMore(memory: Bytes, length: nat)
    requires ReadOne(memory).Char? && ReadOne(memory).size <= |memory|
    requires StartsWith(memory[ReadOne(memory).size..], length)
    ensures StartsWith(memory, length + 1)
  {
    hide ReadOne, EncodeScalar;
    ReadIsEncoded(memory);
    var r := ReadOne(memory);
    var cps: seq<Scalar> :| |cps| == length && EncodeText(cps) <= memory[r.size..];
    var all := [r.cp] + cps;
    assert all[1..] == cps && memory == memory[..r.size] + memory[r.size..];
    assert |all| == length + 1 && EncodeText(all) == EncodeScalar(r.cp) + EncodeText(cps) <= memory;
  }

  lemma StartsWithOneLess(memory: Bytes, length: nat)
    requires StartsWith(memory, length + 1)
    ensures ReadOne(memory).Char? && ReadOne(memory).size <= |memory|
    ensures StartsWith(memory[ReadOne(memory).size..], length)
  {
    hide ReadOne, EncodeScalar;
    var cps: seq<Scalar> :| |cps| == length + 1 && EncodeText(cps) <= memory;
    var e := EncodeScalar(cps[0]);
    assert EncodeText(cps) == e + EncodeText(cps[1..]);
    assert e == EncodeText(cps)[..|e|] == memory[..|e|];
    EncodedIsRead(memory, cps[0]);
    assert EncodeText(cps[1..]) == EncodeText(cps)[|e|..] <= memory[|e|..];
    assert |cps[1..]| == length;
  }

  lemma NoneStarts(memory: Bytes)
    ensures StartsWith(memory, 0)
  {
    var none: seq<Scalar> := [];
    assert |none| == 0 && EncodeText(none) <= memory;
  }

  /** Accepting within the memory means: it starts with the encoding of exactly that many scalar values. */
  lemma {:induction false} LengthCountsCodePoints(memory: Bytes, length: nat)
    ensures LengthVerdict(memory, length) == Valid <==> StartsWith(memory, length)
    decreases length
  {
    hide StartsWith, ReadOne;
    if length == 0 {
      NoneStarts(memory);
    } else {
      if LengthVerdict(memory, length) == Valid {
        ReadIsEncoded(memory);
        LengthCountsCodePoints(memory[ReadOne(memory).size..], length - 1);
        StartsWithOneMore(memory, length - 1);
      }
      if StartsWith(memory, length) {
        StartsWithOneLess(memory, length - 1);
        LengthCountsCodePoints(memory[ReadOne(memory).size..], length - 1);
      }
    }
  }

  predicate IsAscii(s: Bytes) {
    forall i :: 0 <= i < |s| ==> s[i] < 0x80
  }

  /** More code points than bytes cannot be read without leaving the memory or meeting an error. */
  lemma {:induction false} TooLong(s: Bytes, length: nat)
    requires length > |s|
    ensures LengthVerdict(s, length) != Valid
    decreases length
  {
    if ReadOne(s).Char? && ReadOne(s).size <= |s| {
      ReadIsEncoded(s);
      TooLong(s[ReadOne(s).size..], length - 1);
    }
  }

  /** Called with the number of bytes, as the message layer does, it accepts within them exactly ASCII. */
  lemma {:induction false} ByteLengthMeansAscii(s: Bytes)
    ensures LengthVerdict(s, |s|) == Valid <==> IsAscii(s)
    decreases |s|
  {
    if s == [] {
    } else {
      if s[0] < 0x80 {
        assert ReadOne(s) == Char(s[0], 1) by {
          assert Partial(s, 1) == s[0];
        }
        ByteLengthMeansAscii(s[1..]);
        assert s == [s[0]] + s[1..];
      } else if ReadOne(s).Char? {
        var size := ReadOne(s).size;
        ReadIsEncoded(s);
        assert size >= 2;
        TooLong(s[size..], |s| - 1);
      }
    }
  }

  // ---- On arbitrary bytes -----------------------------------------------------------------------

  /** How reading character after character ends: at the end of the bytes, at one that is wrong, or in the
      middle of a character. */
  datatype Ending = AtEnd | AtError | InCharacter

  function EndingOf(s: Bytes): Ending
    decreases |s|
  {
    if s == [] then AtEnd
    else
      match ReadOne(s)
      case Bad => AtError
      case PastEnd => InCharacter
      case Char(_, size) => if 1 <= size <= |s| then EndingOf(s[size..]) else InCharacter
  }

  lemma OneByteIsAscii(s: Bytes)
    requires s != [] && ReadOne(s).Char? && 1 <= ReadOne(s).size <= |s|
    ensures IsAscii(s) <==> ReadOne(s).size == 1 && IsAscii(s[ReadOne(s).size..])
  {
    ReadRestExactly(s, 1);
    hide ReadOne, ReadRest;
    if s[0] < 0x80 {
      assert s == [s[0]] + s[1..];
    }
  }

  /** Asked for at least as many characters as there are bytes, the overload gets as far as that. */
  lemma {:induction false} VerdictByEnding(s: Bytes, length: nat)
    requires length >= |s|
    ensures LengthVerdict(s, length)
         == match EndingOf(s)
            case AtError => Invalid
            case InCharacter => Overread
            case AtEnd => if length == |s| && IsAscii(s) then Valid else Overread
    decreases |s|
  {
    if s == [] {
    } else if ReadOne(s).Char? {
      var size := ReadOne(s).size;
      ReadIsEncoded(s);
      OneByteIsAscii(s);
      hide ReadOne, IsAscii;
      VerdictByEnding(s[size..], length - 1);
    } else {
      hide ReadOne;
    }
  }

  lemma {:induction false} EndsAtEndIff(s: Bytes)
    ensures EndingOf(s) == AtEnd <==> IsUtf8(s)
    decreases |s|
  {
    hide IsUtf8, ReadOne;
    if s == [] {
      EmptyIsUtf8();
    } else {
      Utf8Step(s);
      if ReadOne(s).Char? {
        ReadIsEncoded(s);
        EndsAtEndIff(s[ReadOne(s).size..]);
      }
    }
  }

  /** The bytes break off in the middle of a character: behind whole characters one is begun. */
  ghost predicate BreaksOff(s: Bytes, n: nat) {
    n < |s| && IsUtf8(s[..n]) && ReadOne(s[n..]).PastEnd?
  }

  /** A character at the start is the same if the bytes are cut behind it. */
  lemma CharacterInFront(s: Bytes, n: nat)
    requires ReadOne(s).Char? && ReadOne(s).size <= n <= |s|
    ensures ReadOne(s[..n]) == ReadOne(s)
  {
    hide ReadOne, EncodeScalar;
    ReadIsEncoded(s);
    assert EncodeScalar(ReadOne(s).cp) <= s[..n];
    EncodedIsRead(s[..n], ReadOne(s).cp);
  }

  lemma {:induction false} BreakFound(s: Bytes) returns (n: nat)
    requires EndingOf(s) == InCharacter
    ensures BreaksOff(s, n)
    decreases |s|
  {
    hide IsUtf8, ReadOne;
    n := 0;
    if ReadOne(s).Char? {
      ReadIsEncoded(s);
      var size := ReadOne(s).size;
      var k := BreakFound(s[size..]);
      n := size + k;
      CharacterInFront(s, n);
      assert s[..n][size..] == s[size..][..k] && s[n..] == s[size..][k..];
      Utf8Step(s[..n]);
    } else {
      EmptyIsUtf8();
      assert s[..0] == [] && s[0..] == s;
    }
  }

  lemma {:induction false} BreakIsInCharacter(s: Bytes, n: nat)
    requires BreaksOff(s, n)
    ensures EndingOf(s) == InCharacter
    decreases |s|
  {
    hide IsUtf8, ReadOne;
    if n == 0 {
      assert s[0..] == s;
    } else {
      Utf8Step(s[..n]);
      var r := ReadOne(s[..n]);
      ReadIsEncoded(s[..n]);
      EncodedIsRead(s, r.cp);
      assert s[..n][r.size..] == s[r.size..][..n - r.size] && s[n..] == s[r.size..][n - r.size..];
      BreakIsInCharacter(s[r.size..], n - r.size);
    }
  }

  /** Exactly when the overload, called with the number of bytes, reads past the end: the bytes are not ASCII, and
      they are UTF-8 or break off in the middle of a character. */
  lemma OverreadsExactly(s: Bytes)
    ensures LengthVerdict(s, |s|) == Overread <==> !IsAscii(s) && (IsUtf8(s) || exists n :: BreaksOff(s, n))
  {
    VerdictByEnding(s, |s|);
    EndsAtEndIff(s);
    ByteLengthMeansAscii(s);
    hide LengthVerdict, EndingOf, IsAscii, IsUtf8, BreaksOff;
    if EndingOf(s) == InCharacter {
      var n := BreakFound(s);
    } else if exists n :: BreaksOff(s, n) {
      var n :| BreaksOff(s, n);
      BreakIsInCharacter(s, n);
    }
  }

  /** On text that is UTF-8 it never finds an error of its own, and it stays within the text if and only if the
      text is ASCII: any other valid text makes it read past the end. */
  lemma ValidTextOverreads(s: Bytes)
    requires IsUtf8(s)
    ensures LengthVerdict(s, |s|) == if IsAscii(s) then Valid else Overread
  {
    VerdictByEnding(s, |s|);
    EndsAtEndIff(s);
  }

  /** Such a text: U+00E9 in two bytes. */
  lemma AccentOverreads()
    ensures IsUtf8([0xC3, 0xA9]) && LengthVerdict([0xC3, 0xA9], 2) == Overread
  {
    var cps: seq<Scalar> := [0xE9];
    assert EncodeText(cps) == EncodeScalar(0xE9) + EncodeText([]) == [0xC3, 0xA9];
    ValidTextOverreads([0xC3, 0xA9]);
    assert !IsAscii([0xC3, 0xA9]) by {
      assert [0xC3, 0xA9][0] == 0xC3;
    }
  }

  /** A text check that agrees with the overload wherever it stays within the payload; past the end
      anything may come out. */
  ghost predicate Faithful(textOk: Bytes -> bool) {
    forall s :: (LengthVerdict(s, |s|) == Valid ==> textOk(s)) && (LengthVerdict(s, |s|) == Invalid ==> !textOk(s))
  }

  /** So every ASCII text passes, whatever lies behind the payload. */
  lemma AsciiPasses(textOk: Bytes -> bool, s: Bytes)
    requires Faithful(textOk) && IsAscii(s)
    ensures textOk(s)
  {
    ByteLengthMeansAscii(s);
  }
}

/** Base64 (util/base64.h) against section 4 of RFC 4648. Characters are their ASCII codes. */
module Base64 {
  import opened ByteArrays

  const PAD: byte := 61

  type Sextet = x: nat | x < 64

  // ---- The standard ---------------------------------------------------------------

  /** The character of a 6-bit value: A-Z, a-z, 0-9, '+', '/'. */
  function Symbol(v: Sextet): byte {
    if v < 26 then 65 + v
    else if v < 52 then 71 + v
    else if v < 62 then v - 4
    else if v == 62 then 43
    else 47
  }

  /** The four 6-bit digits of three bytes read as one 24-bit number. */
  function Digit(b0: byte, b1: byte, b2: byte, i: nat): Sextet
    requires i < 4
  {
    var v: nat := b0 * 65536 + b1 * 256 + b2;
    if i == 0 then v / 262144 else if i == 1 then v / 4096 % 64 else if i == 2 then v / 64 % 64 else v % 64
  }

  function EncodeGroup(g: Bytes): (s: Bytes)
    requires 1 <= |g| <= 3
    ensures |s| == 4
  {
    var b0, b1, b2 := g[0], if |g| > 1 then g[1] else 0, if |g| > 2 then g[2] else 0;
    [Symbol(Digit(b0, b1, b2, 0)), Symbol(Digit(b0, b1, b2, 1)),
     if |g| > 1 then Symbol(Digit(b0, b1, b2, 2)) else PAD,
     if |g| > 2 then Symbol(Digit(b0, b1, b2, 3)) else PAD]
  }

  function GroupSize(x: Bytes): nat {
    if |x| < 3 then |x| else 3
  }

  /** The number of groups of up to three bytes. */
  function Groups(n: nat): (g: nat)
    ensures g == 0 <==> n == 0
  {
    if n == 0 then 0 else if n <= 3 then 1 else 1 + Groups(n - 3)
  }

  lemma {:induction false} GroupsAreThirds(n: nat)
    ensures Groups(n) == (n + 2) / 3
  {
    if n <= 3 {
    } else {
      GroupsAreThirds(n - 3);
    }
  }

  function Encoding(x: Bytes): (s: Bytes)
    ensures |s| == 4 * Groups(|x|)
  {
    if x == [] then [] else EncodeGroup(x[..GroupSize(x)]) + Encoding(x[GroupSize(x)..])
  }

  // ---- Encoding -------------------------------------------------------------------

  lemma FourDigits(v: nat, d0: Sextet, d1: Sextet, d2: Sextet, d3: Sextet)
    requires v == d0 * 262144 + d1 * 4096 + d2 * 64 + d3
    ensures v / 262144 == d0 && v / 4096 % 64 == d1 && v / 64 % 64 == d2 && v % 64 == d3
  {
    assert v / 64 == d0 * 4096 + d1 * 64 + d2;
    assert v / 4096 == d0 * 64 + d1;
  }

  /** The shifts and masks of the encoder pick out the four digits. */
  lemma DigitsByShifts(b0: byte, b1: byte, b2: byte)
    ensures Digit(b0, b1, b2, 0) == b0 / 4
    ensures Digit(b0, b1, b2, 1) == b0 % 4 * 16 + b1 / 16
    ensures Digit(b0, b1, b2, 2) == b1 % 16 * 4 + b2 / 64
    ensures Digit(b0, b1, b2, 3) == b2 % 64
  {
    FourDigits(b0 as int * 65536 + b1 as int * 256 + b2, b0 / 4, b0 % 4 * 16 + b1 / 16, b1 % 16 * 4 + b2 / 64, b2 % 64);
  }

  lemma EncodingUnfolds(x: Bytes)
    requires x != []
    ensures Encoding(x) == EncodeGroup(x[..GroupSize(x)]) + Encoding(x[GroupSize(x)..])
  {
  }

  method PushGroup(output: Bytes, byte0: byte, byte1: byte, byte2: byte, eqCount: nat, ghost g: Bytes)
      returns (r: Bytes)
    requires 1 <= |g| <= 3 && eqCount == 3 - |g|
    requires byte0 == g[0] && byte1 == (if |g| > 1 then g[1] else 0) && byte2 == if |g| > 2 then g[2] else 0
    ensures r == output + EncodeGroup(g)
  {
    DigitsByShifts(byte0, byte1, byte2);
    r := output + [Symbol(byte0 / 4)];
    r := r + [Symbol(byte0 % 4 * 16 + byte1 / 16)];
    r := r + [if eqCount > 1 then PAD else Symbol(byte1 % 16 * 4 + byte2 / 64)];
    r := r + [if eqCount > 0 then PAD else Symbol(byte2 % 64)];
  }

  method Encode(input: Bytes) returns (output: Bytes)
    ensures output == Encoding(input)
  {
    assert Encoding([]) == [];
    hide EncodeGroup, Encoding;
    output := [];
    if input == [] {
      return;
    }
    var length := |input|;
    var index := 0;
    assert input[0..] == input;
    while index < length
      invariant index <= length
      invariant Encoding(input) == output + Encoding(input[index..])
    {
      ghost var rest := input[index..];
      var eqCount := 2;
      var byte0: byte, byte1: byte, byte2: byte := input[index], 0, 0;
      index := index + 1;
      if index < length {
        byte1 := input[index];
        index := index + 1;
        eqCount := eqCount - 1;
      }
      if index < length {
        byte2 := input[index];
        index := index + 1;
        eqCount := eqCount - 1;
      }
      assert input[index..] == rest[GroupSize(rest)..];
      ghost var done, group := output, EncodeGroup(rest[..GroupSize(rest)]);
      output := PushGroup(output, byte0, byte1, byte2, eqCount, rest[..GroupSize(rest)]);
      EncodingUnfolds(rest);
      ConcatAssoc(done, group, Encoding(input[index..]));
    }
    assert input[index..] == [];
  }

  // ---- Decoding -------------------------------------------------------------------

  const UINT8_MAX: byte := 255

  /** The value of a character, with '=' as 0; 255 for any other character. */
  function GetByte(c: byte): byte {
    if 65 <= c <= 90 then c - 65
    else if 97 <= c <= 122 then c - 71
    else if 48 <= c <= 57 then c + 4
    else if c == 43 then 62
    else if c == 47 then 63
    else if c == PAD then 0
    else UINT8_MAX
  }

  /** Table 1 of RFC 4648, eight characters a row. */
  const TABLE: seq<string> :=
    ["ABCDEFGH", "IJKLMNOP", "QRSTUVWX", "YZabcdef", "ghijklmn", "opqrstuv", "wxyz0123", "456789+/"]

  lemma SymbolInTable(v: Sextet)
    ensures v / 8 < |TABLE| && v % 8 < |TABLE[v / 8]| && Symbol(v) == TABLE[v / 8][v % 8] as int
  {
    var k := v % 8;
    assert v == v / 8 * 8 + k;
    match v / 8
    case 0 =>
    case 1 =>
    case 2 =>
    case 3 =>
    case 4 =>
    case 5 =>
    case 6 =>
    case 7 =>
  }

  /** The encoder's characters are the standard's table, and the decoder knows exactly these and '='. */
  lemma TableIsKept(c: byte)
    ensures forall v: Sextet ::
              && v / 8 < |TABLE| && v % 8 < |TABLE[v / 8]|
              && Symbol(v) == TABLE[v / 8][v % 8] as int && GetByte(Symbol(v)) == v
    ensures GetByte(c) == 255 <==> c != '=' as int && forall v: Sextet :: Symbol(v) != c
    ensures GetByte('=' as int) == 0
  {
    forall v: Sextet
      ensures v / 8 < |TABLE| && v % 8 < |TABLE[v / 8]| && Symbol(v) == TABLE[v / 8][v % 8] as int
      ensures GetByte(Symbol(v)) == v
    {
      SymbolInTable(v);
    }
    hide TABLE;
    if GetByte(c) != 255 && c != 61 {
      assert Symbol(GetByte(c)) == c;
    }
  }

  /** The values of four characters. */
  function GroupValues(s: Bytes, start: nat): (b: Bytes)
    requires start + 4 <= |s|
    ensures |b| == 4
  {
    [GetByte(s[start]), GetByte(s[start + 1]), GetByte(s[start + 2]), GetByte(s[start + 3])]
  }

  /** The number of '=' at the end. */
  function Pads(s: Bytes): (n: nat)
    ensures n <= |s|
  {
    if s == [] || s[|s| - 1] != PAD then 0 else 1 + Pads(s[..|s| - 1])
  }

  /** The length reserved for the output; below zero it wraps around and reserving it throws. */
  function DecodeLength(s: Bytes): int {
    |s| / 4 * 3 - Pads(s)
  }

  datatype Result = Ok(bytes: Bytes) | Rejected | Thrown

  function First(b: Bytes): byte requires |b| == 4 { (b[0] as int * 4 + b[1] / 16) % 256 }

  function Second(b: Bytes): byte requires |b| == 4 { (b[1] as int * 16 + b[2] / 4) % 256 }

  function Third(b: Bytes): byte requires |b| == 4 { (b[2] as int * 64 + b[3]) % 256 }

  /** Decodes group by group into what has been decoded already, stopping inside a group when the reserved
      length is reached. */
  function DecodeFrom(s: Bytes, cap: int, output: Bytes): Result
    decreases |s|
  {
    if |s| < 4 then Ok(output)
    else
      var b := GroupValues(s, 0);
      if UINT8_MAX in b then Rejected
      else
        var one := output + [First(b)];
        var two := one + [Second(b)];
        if |one| == cap then Ok(one)
        else if |two| == cap then Ok(two)
        else DecodeFrom(s[4..], cap, two + [Third(b)])
  }

  function Decoding(s: Bytes): Result {
    if s == [] then Ok([])
    else if |s| % 4 != 0 then Rejected
    else if DecodeLength(s) < 0 then Thrown
    else DecodeFrom(s, DecodeLength(s), [])
  }

  lemma RoomForGroup(index: nat, length: nat)
    requires index < length && index % 4 == 0 && length % 4 == 0
    ensures index + 4 <= length && (index + 4) % 4 == 0
  {
  }

  lemma ReadingFrom(input: Bytes, index: nat)
    requires index + 4 <= |input|
    ensures GroupValues(input[index..], 0) == GroupValues(input, index)
  {
    hide GetByte;
  }

  /** Looks for the last character that is not '='. */
  method CountPads(s: Bytes) returns (n: nat)
    ensures n == Pads(s)
  {
    n := 0;
    assert s[..|s|] == s;
    while n < |s| && s[|s| - 1 - n] == PAD
      invariant n <= |s|
      invariant Pads(s) == n + Pads(s[..|s| - n])
    {
      assert s[..|s| - n][..|s| - n - 1] == s[..|s| - n - 1];
      n := n + 1;
    }
  }

  /** The values of the next four characters, if all are in the alphabet. */
  method ReadGroup(input: Bytes, start: nat) returns (group: Option<Bytes>)
    requires start + 4 <= |input|
    ensures var all := GroupValues(input, start); group == if UINT8_MAX in all then None else Some(all)
  {
    ghost var all := GroupValues(input, start);
    var bytes: Bytes := [];
    var i := 0;
    while i < 4
      invariant i <= 4 && bytes == all[..i] && UINT8_MAX !in bytes
    {
      var b := GetByte(input[start + i]);
      assert b == all[i];
      if b == UINT8_MAX {
        return None;
      }
      bytes := bytes + [b];
      i := i + 1;
    }
    assert all[..4] == all;
    return Some(bytes);
  }

  /** One turn of the decoder. */
  lemma DecodeFromStep(s: Bytes, cap: int, output: Bytes)
    requires |s| >= 4
    ensures var b := GroupValues(s, 0);
            var one := output + [First(b)];
            var two := one + [Second(b)];
            DecodeFrom(s, cap, output)
            == if UINT8_MAX in b then Rejected
               else if |one| == cap then Ok(one)
               else if |two| == cap then Ok(two)
               else DecodeFrom(s[4..], cap, two + [Third(b)])
  {
    hide GetByte, First, Second, Third, GroupValues;
  }

  lemma DecodeNothing(s: Bytes, cap: int, output: Bytes)
    requires |s| < 4
    ensures DecodeFrom(s, cap, output) == Ok(output)
  {
  }

  method Decode(input: Bytes) returns (res: Result)
    ensures res == Decoding(input)
  {
    hide GetByte, First, Second, Third, Pads;
    if input == [] {
      return Ok([]);
    }
    var length := |input|;
    if length % 4 != 0 {
      return Rejected;
    }
    var pads := CountPads(input);
    var cap := length / 4 * 3 - pads;
    if cap < 0 {
      return Thrown;
    }
    var output: Bytes := [];
    var index := 0;
    assert input[0..] == input;
    assert Decoding(input) == DecodeFrom(input, cap, output);
    hide *;
    while index < length
      invariant index <= length && index % 4 == 0
      invariant Decoding(input) == DecodeFrom(input[index..], cap, output)
    {
      RoomForGroup(index, length);
      var group := ReadGroup(input, index);
      ghost var rest := input[index..];
      DecodeFromStep(rest, cap, output);
      ReadingFrom(input, index);
      index := index + 4;
      if group.None? {
        return Rejected;
      }
      assert rest[4..] == input[index..];
      var bytes := group.value;
      output := output + [First(bytes)];
      if |output| == cap {
        return Ok(output);
      }
      output := output + [Second(bytes)];
      if |output| == cap {
        return Ok(output);
      }
      output := output + [Third(bytes)];
    }
    DecodeNothing(input[index..], cap, output);
    return Ok(output);
  }

  // ---- Round trip -------------------------------------------------------------------

  lemma SymbolDecodes(v: Sextet)
    ensures GetByte(Symbol(v)) == v && Symbol(v) != PAD
  {
  }

  lemma JoinFirst(b0: byte, b1: byte)
    ensures (b0 as int / 4 * 4 + (b0 as int % 4 * 16 + b1 / 16) / 16) % 256 == b0
  {
    assert (b0 as int % 4 * 16 + b1 / 16) / 16 == b0 % 4;
  }

  lemma JoinSecond(b0: byte, b1: byte, b2: byte)
    ensures ((b0 as int % 4 * 16 + b1 / 16) * 16 + (b1 as int % 16 * 4 + b2 / 64) / 4) % 256 == b1
  {
    assert (b1 as int % 16 * 4 + b2 / 64) / 4 == b1 % 16;
    assert (b0 as int % 4 * 16 + b1 / 16) * 16 + b1 % 16 == b0 as int % 4 * 256 + b1;
  }

  lemma JoinThird(b1: byte, b2: byte)
    ensures ((b1 as int % 16 * 4 + b2 / 64) * 64 + b2 % 64) % 256 == b2
  {
    assert (b1 as int % 16 * 4 + b2 / 64) * 64 + b2 % 64 == b1 as int % 16 * 256 + b2;
  }

  /** The digits of three bytes, put back together by the decoder's shifts. */
  lemma GroupDecodes(b0: byte, b1: byte, b2: byte)
    ensures var d: Bytes := [Digit(b0, b1, b2, 0), Digit(b0, b1, b2, 1), Digit(b0, b1, b2, 2), Digit(b0, b1, b2, 3)];
            First(d) == b0 && Second(d) == b1 && Third(d) == b2
  {
    hide Digit;
    DigitsByShifts(b0, b1, b2);
    JoinFirst(b0, b1);
    JoinSecond(b0, b1, b2);
    JoinThird(b1, b2);
  }

  lemma PadValue()
    ensures GetByte(PAD) == 0
  {
  }

  /** The values the decoder finds in one encoded group. */
  lemma EncodedGroupValues(g: Bytes)
    requires 1 <= |g| <= 3
    ensures var s := EncodeGroup(g);
            var b := GroupValues(s, 0);
            && UINT8_MAX !in b && First(b) == g[0]
            && (|g| > 1 ==> Second(b) == g[1]) && (|g| > 2 ==> Third(b) == g[2])
  {
    hide Symbol, GetByte, Digit;
    var b0, b1, b2 := g[0], if |g| > 1 then g[1] else 0, if |g| > 2 then g[2] else 0;
    SymbolDecodes(Digit(b0, b1, b2, 0));
    SymbolDecodes(Digit(b0, b1, b2, 1));
    SymbolDecodes(Digit(b0, b1, b2, 2));
    SymbolDecodes(Digit(b0, b1, b2, 3));
    PadValue();
    GroupDecodes(b0, b1, b2);
    DigitsByShifts(b0, b1, b2);
  }

  lemma WholeGroups(length: nat, groups: nat)
    requires length == 4 * groups
    ensures length % 4 == 0 && length / 4 == groups
  {
  }

  lemma EncodingStart(x: Bytes)
    requires x != []
    ensures var s := Encoding(x);
            var g := x[..GroupSize(x)];
            && |s| >= 4 && s[4..] == Encoding(x[GroupSize(x)..])
            && GroupValues(s, 0) == GroupValues(EncodeGroup(g), 0)
  {
    hide EncodeGroup, GetByte;
    hide Groups;
    var s := Encoding(x);
    assert s[..4] == EncodeGroup(x[..GroupSize(x)]);
    assert GroupValues(s, 0) == GroupValues(s[..4], 0);
  }

  lemma FirstGroup(x: Bytes, output: Bytes)
    requires x != []
    ensures |x| == 1 ==> output + x == output + [x[0]]
    ensures |x| == 2 ==> output + x == output + [x[0]] + [x[1]]
    ensures |x| >= 3 ==> output + x == output + [x[0]] + [x[1]] + [x[2]] + x[3..]
    ensures var g := x[..GroupSize(x)];
            g[0] == x[0] && (|x| > 1 ==> g[1] == x[1]) && (|x| > 2 ==> g[2] == x[2])
  {
  }

  lemma GroupSizeIs(x: Bytes)
    ensures GroupSize(x) == if |x| < 3 then |x| else 3
  {
  }

  lemma {:induction false} DecodeEncoded(x: Bytes, output: Bytes)
    ensures DecodeFrom(Encoding(x), |output| + |x|, output) == Ok(output + x)
    decreases |x|
  {
    if x == [] {
      assert output + x == output;
    } else {
      hide *;
      FirstGroup(x, output);
      GroupSizeIs(x);
      EncodedGroupValues(x[..GroupSize(x)]);
      EncodingStart(x);
      DecodeFromStep(Encoding(x), |output| + |x|, output);
      if |x| >= 3 {
        DecodeEncoded(x[3..], output + [x[0]] + [x[1]] + [x[2]]);
      }
    }
  }

  lemma {:induction false} PadsAfter(a: Bytes, b: Bytes)
    requires Pads(b) < |b|
    ensures Pads(a + b) == Pads(b)
    decreases |b|
  {
    assert (a + b)[|a + b| - 1] == b[|b| - 1];
    if b[|b| - 1] == PAD {
      assert (a + b)[..|a + b| - 1] == a + b[..|b| - 1];
      PadsAfter(a, b[..|b| - 1]);
    }
  }

  lemma GroupPads(g: Bytes)
    requires 1 <= |g| <= 3
    ensures Pads(EncodeGroup(g)) == 3 - |g|
  {
    var s := EncodeGroup(g);
    var b0, b1, b2 := g[0], if |g| > 1 then g[1] else 0, if |g| > 2 then g[2] else 0;
    SymbolDecodes(Digit(b0, b1, b2, 1));
    SymbolDecodes(Digit(b0, b1, b2, 2));
    SymbolDecodes(Digit(b0, b1, b2, 3));
    hide Symbol, Digit;
    assert s[..3][2] == s[2] && s[..3][..2][1] == s[1];
    assert Pads(s[..3][..2]) == 0;
    assert |g| < 2 ==> Pads(s[..3]) == 1;
  }

  lemma {:induction false} EncodingPads(x: Bytes)
    requires x != []
    ensures Pads(Encoding(x)) < |Encoding(x)|
    ensures |Encoding(x)| / 4 * 3 - Pads(Encoding(x)) == |x|
    decreases |x|
  {
    hide EncodeGroup, Pads;
    var n := GroupSize(x);
    GroupPads(x[..n]);
    if x[n..] == [] {
      assert Encoding(x) == EncodeGroup(x[..n]);
    } else {
      EncodingPads(x[n..]);
      PadsAfter(EncodeGroup(x[..n]), Encoding(x[n..]));
    }
  }

  lemma EncodingLength(x: Bytes)
    requires x != []
    ensures var s := Encoding(x); s != [] && |s| % 4 == 0 && DecodeLength(s) == |x|
  {
    hide EncodeGroup, Pads;
    EncodingPads(x);
    WholeGroups(|Encoding(x)|, Groups(|x|));
  }

  lemma NothingRoundTrips()
    ensures Decoding(Encoding([])) == Ok([])
  {
    hide DecodeFrom, DecodeLength;
  }

  /** No error before the first group. */
  lemma DecodingStarts(x: Bytes)
    requires x != []
    ensures Decoding(Encoding(x)) == DecodeFrom(Encoding(x), |x|, [])
  {
    EncodingLength(x);
    hide Encoding, DecodeLength, DecodeFrom;
  }

  /** Decoding what was encoded gives exactly the bytes back. */
  lemma RoundTrip(x: Bytes)
    ensures Decoding(Encoding(x)) == Ok(x)
  {
    hide *;
    if x == [] {
      NothingRoundTrips();
    } else {
      DecodingStarts(x);
      DecodeEncoded(x, []);
      assert [] + x == x;
    }
  }

  // ---- What the decoder accepts -----------------------------------------------------------------

  /** The groups the decoder looks at: all of them, or those up to the one in which it reaches the reserved
      length. */
  function GroupsRead(groups: nat, cap: nat): nat {
    if cap % 3 == 0 then groups else cap / 3 + 1
  }

  /** Every one of the first n characters is in the alphabet or '='. */
  predicate AllKnown(s: Bytes, n: nat)
    requires n <= |s|
  {
    forall k :: 0 <= k < n ==> GetByte(s[k]) != UINT8_MAX
  }

  lemma KnownGroup(s: Bytes, n: nat)
    requires 4 <= n <= |s|
    ensures AllKnown(s, n) <==> UINT8_MAX !in GroupValues(s, 0) && AllKnown(s[4..], n - 4)
  {
    hide GetByte;
    if UINT8_MAX !in GroupValues(s, 0) && AllKnown(s[4..], n - 4) {
      forall k | 0 <= k < n ensures GetByte(s[k]) != UINT8_MAX {
        if k < 4 {
          assert GetByte(s[k]) in GroupValues(s, 0);
        } else {
          assert s[k] == s[4..][k - 4];
        }
      }
    }
    if AllKnown(s, n) {
      forall k | 0 <= k < n - 4 ensures GetByte(s[4..][k]) != UINT8_MAX {
        assert s[4..][k] == s[k + 4];
      }
    }
  }

  /** Whether the decoder stops in the next group, and what is left if it does not. */
  lemma GroupsLeft(left: nat, cap: nat, done: nat)
    requires left > 0 && cap <= 3 * (done + left) && (cap % 3 != 0 ==> 3 * done < cap)
    ensures var n := GroupsRead(done + left, cap);
            && done < n <= done + left
            && (cap == 3 * done + 1 || cap == 3 * done + 2 ==> n == done + 1)
            && (cap != 3 * done + 1 && cap != 3 * done + 2 && cap % 3 != 0 ==> 3 * (done + 1) < cap)
  {
  }

  lemma {:induction false} DecodeFromExactly(s: Bytes, cap: nat, output: Bytes, done: nat, left: nat)
    requires |s| == 4 * left && |output| == 3 * done && cap <= 3 * (done + left)
    requires cap % 3 != 0 ==> 3 * done < cap
    ensures var n := GroupsRead(done + left, cap);
            && done <= n <= done + left
            && (DecodeFrom(s, cap, output).Ok? <==> AllKnown(s, 4 * (n - done)))
            && (DecodeFrom(s, cap, output).Ok? || DecodeFrom(s, cap, output).Rejected?)
    decreases left
  {
    hide GetByte, First, Second, Third, GroupValues, DecodeFrom;
    if left == 0 {
      assert DecodeFrom(s, cap, output) == Ok(output) by {
        DecodeNothing(s, cap, output);
      }
    } else {
      GroupsLeft(left, cap, done);
      DecodeFromStep(s, cap, output);
      var n := GroupsRead(done + left, cap);
      hide GroupsRead;
      KnownGroup(s, 4 * (n - done));
      var b := GroupValues(s, 0);
      var one := output + [First(b)];
      var two := one + [Second(b)];
      if UINT8_MAX !in b && |one| != cap && |two| != cap {
        hide AllKnown;
        DecodeFromExactly(s[4..], cap, two + [Third(b)], done + 1, left - 1);
      }
    }
  }

  /** Which strings are decoded: those of whole groups, with no more '=' at the end than groups have bytes, whose
      characters are known as far as the decoder looks. Behind the group in which it reaches the reserved
      length anything may stand. */
  lemma DecodesExactly(s: Bytes)
    ensures Decoding(s).Ok? <==>
              && |s| % 4 == 0 && DecodeLength(s) >= 0
              && AllKnown(s, 4 * GroupsRead(|s| / 4, DecodeLength(s)))
    ensures Decoding(s).Thrown? <==> |s| % 4 == 0 && DecodeLength(s) < 0
  {
    if s != [] && |s| % 4 == 0 && DecodeLength(s) >= 0 {
      hide GetByte, DecodeFrom, Pads;
      DecodeFromExactly(s, DecodeLength(s), [], 0, |s| / 4);
    }
  }

  lemma {:induction false} ManyPads(c: byte, n: nat)
    requires c != PAD
    ensures Pads([c] + seq(n, _ => PAD)) == n
  {
    var s := [c] + seq(n, _ => PAD);
    if n == 0 {
    } else {
      assert s[..|s| - 1] == [c] + seq(n - 1, _ => PAD);
      ManyPads(c, n - 1);
    }
  }

  /** A string with an unknown character that is decoded. */
  lemma UnknownCharacterPasses()
    ensures Decoding([65, 65, 65, 65, 33, 61, 61, 61, 61, 61, 61, 61]).Ok?
  {
    var s: Bytes := [65, 65, 65, 65, 33, 61, 61, 61, 61, 61, 61, 61];
    hide DecodeFrom, Pads;
    ManyPads(33, 7);
    assert s[4..] == [33] + seq(7, _ => PAD);
    PadsAfter(s[..4], s[4..]);
    assert s == s[..4] + s[4..];
    DecodesExactly(s);
  }

  // ---- Canonical strings ---------------------------------------------------------------------------

  predicate IsSymbol(c: byte) {
    GetByte(c) != UINT8_MAX && c != PAD
  }

  /** A last group: unused bits are zero and '=' stands only at its end, at most twice. */
  predicate LastGroup(s: Bytes)
    requires |s| == 4
  {
    && IsSymbol(s[0]) && IsSymbol(s[1])
    && if s[2] == PAD then s[3] == PAD && GetByte(s[1]) % 16 == 0
       else IsSymbol(s[2]) && if s[3] == PAD then GetByte(s[2]) % 4 == 0 else IsSymbol(s[3])
  }

  /** The canonical strings of section 3.5 of RFC 4648. */
  predicate Canonical(s: Bytes)
    decreases |s|
  {
    if s == [] then true
    else if |s| < 4 then false
    else if |s| == 4 then LastGroup(s)
    else (forall k :: 0 <= k < 4 ==> IsSymbol(s[k])) && Canonical(s[4..])
  }

  lemma SymbolOfValue(c: byte)
    requires IsSymbol(c)
    ensures GetByte(c) < 64 && Symbol(GetByte(c)) == c
  {
  }

  lemma EncodedSymbol(v: Sextet)
    ensures IsSymbol(Symbol(v)) && GetByte(Symbol(v)) == v
  {
  }

  lemma SymbolIsNoPad(v: Sextet)
    ensures Symbol(v) != PAD
  {
  }

  lemma {:induction false} EncodingIsCanonical(x: Bytes)
    ensures Canonical(Encoding(x))
    decreases |x|
  {
    hide Symbol, GetByte, IsSymbol, Digit;
    if x == [] {
    } else {
      var n := GroupSize(x);
      var g := x[..n];
      var s := Encoding(x);
      var b0, b1, b2 := g[0], if |g| > 1 then g[1] else 0, if |g| > 2 then g[2] else 0;
      DigitsByShifts(b0, b1, b2);
      EncodedSymbol(Digit(b0, b1, b2, 0));
      EncodedSymbol(Digit(b0, b1, b2, 1));
      EncodedSymbol(Digit(b0, b1, b2, 2));
      EncodedSymbol(Digit(b0, b1, b2, 3));
      SymbolIsNoPad(Digit(b0, b1, b2, 2));
      SymbolIsNoPad(Digit(b0, b1, b2, 3));
      assert s[..4] == EncodeGroup(g);
      assert s[4..] == Encoding(x[n..]);
      EncodingIsCanonical(x[n..]);
      if x[n..] == [] {
        assert s[..4] == s;
      }
    }
  }

  lemma JoinAndSplit(v0: Sextet, v1: Sextet, v2: Sextet, v3: Sextet) returns (b0: byte, b1: byte, b2: byte)
    ensures Digit(b0, b1, b2, 0) == v0 && Digit(b0, b1, b2, 1) == v1
    ensures Digit(b0, b1, b2, 2) == v2 && Digit(b0, b1, b2, 3) == v3
    ensures v1 % 16 == 0 && v2 == 0 ==> b1 == 0
    ensures v2 % 4 == 0 && v3 == 0 ==> b2 == 0
  {
    b0, b1, b2 := v0 * 4 + v1 / 16, v1 % 16 * 16 + v2 / 4, v2 % 4 * 64 + v3;
    assert b0 / 4 == v0 && b0 % 4 == v1 / 16;
    assert b1 / 16 == v1 % 16 && b1 % 16 == v2 / 4;
    assert b2 / 64 == v2 % 4 && b2 % 64 == v3;
    DigitsByShifts(b0, b1, b2);
  }

  lemma CanonicalGroup(s: Bytes) returns (g: Bytes)
    requires |s| == 4
    requires LastGroup(s)
    ensures 1 <= |g| <= 3 && EncodeGroup(g) == s
    ensures s[3] != PAD ==> |g| == 3
  {
    hide Symbol, Digit;
    SymbolOfValue(s[0]);
    SymbolOfValue(s[1]);
    if s[2] != PAD {
      SymbolOfValue(s[2]);
    }
    if s[3] != PAD {
      SymbolOfValue(s[3]);
    }
    PadValue();
    var v2: Sextet := if s[2] == PAD then 0 else GetByte(s[2]);
    var v3: Sextet := if s[3] == PAD then 0 else GetByte(s[3]);
    hide GetByte, IsSymbol;
    var b0, b1, b2 := JoinAndSplit(GetByte(s[0]), GetByte(s[1]), v2, v3);
    g := if s[2] == PAD then [b0] else if s[3] == PAD then [b0, b1] else [b0, b1, b2];
    assert EncodeGroup(g)[0] == s[0] && EncodeGroup(g)[1] == s[1];
    assert EncodeGroup(g)[2] == s[2] && EncodeGroup(g)[3] == s[3];
  }

  lemma {:induction false} CanonicalIsEncoding(s: Bytes) returns (x: Bytes)
    requires Canonical(s)
    ensures Encoding(x) == s
    decreases |s|
  {
    hide GetByte, EncodeGroup;
    x := [];
    if |s| == 4 {
      var g := CanonicalGroup(s);
      x := g;
      assert x[..GroupSize(x)] == g && x[GroupSize(x)..] == [];
    } else if s != [] {
      var group := s[..4];
      assert IsSymbol(s[0]) && IsSymbol(s[1]) && IsSymbol(s[2]) && IsSymbol(s[3]);
      assert LastGroup(group);
      var g := CanonicalGroup(group);
      var rest := CanonicalIsEncoding(s[4..]);
      x := g + rest;
      assert x[..3] == g && x[3..] == rest;
    }
  }

  /** Decoding and encoding again gives a string back exactly if it is canonical. */
  lemma ReencodesIff(s: Bytes)
    ensures Decoding(s).Ok? && Encoding(Decoding(s).bytes) == s <==> Canonical(s)
  {
    hide Decoding, Encoding, Canonical;
    if Canonical(s) {
      var x := CanonicalIsEncoding(s);
      RoundTrip(x);
    }
    if Decoding(s).Ok? {
      EncodingIsCanonical(Decoding(s).bytes);
    }
  }
}

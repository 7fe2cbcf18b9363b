/** Bytes, big-endian integers and the XOR mask (util/byte_array.h, util/byte_converter.h). */
module ByteArrays {
  type byte = x: int | 0 <= x < 256
  type Bytes = seq<byte>
  datatype Option<+T> = None | Some(value: T)
  datatype ParseResult = Complete | Incomplete | ParseError
  lemma ConcatAssoc<T>(a: seq<T>, b: seq<T>, c: seq<T>)
    ensures a + (b + c) == a + b + c
  {
  }

  lemma ConcatAssoc4<T>(a: seq<T>, b: seq<T>, c: seq<T>, d: seq<T>)
    ensures a + (b + (c + d)) == a + b + c + d
  {
    ConcatAssoc(b, c, d);
    ConcatAssoc(a, b + c, d);
    ConcatAssoc(a, b, c);
  }

  lemma ConcatAssoc5<T>(a: seq<T>, b: seq<T>, c: seq<T>, d: seq<T>, e: seq<T>)
    ensures a + b + c + d + e == a + (b + c + d + e)
  {
    ConcatAssoc(a, b + c + d, e);
    ConcatAssoc(a, b + c, d);
    ConcatAssoc(a, b, c);
  }

  /** The concatenation of a sequence of sequences. */
  function Flatten<T>(parts: seq<seq<T>>): seq<T> {
    if parts == [] then [] else parts[0] + Flatten(parts[1..])
  }

  lemma {:induction false} FlattenConcat<T>(a: seq<seq<T>>, b: seq<seq<T>>)
    ensures Flatten(a + b) == Flatten(a) + Flatten(b)
  {
    if a == [] {
      assert a + b == b;
    } else {
      FlattenConcat(a[1..], b);
      assert (a + b)[1..] == a[1..] + b;
      assert (a + b)[0] == a[0];
    }
  }

  // ---- Big-endian integers ------------------------------------------------

  /** 256 to the power n: one more than the largest n-byte integer. */
  function Pow256(n: nat): (p: nat)
    ensures p > 0
  {
    if n == 0 then 1 else 256 * Pow256(n - 1)
  }

  /** The n-byte big-endian form of x, most significant byte first. */
  function BigEndian(x: nat, n: nat): (s: Bytes)
    ensures |s| == n
  {
    if n == 0 then [] else BigEndian(x / 256, n - 1) + [x % 256]
  }

  lemma LastByte(n: nat, k: nat)
    requires k > 0
    ensures BigEndian(n, k) == BigEndian(n / 256, k - 1) + [n % 256]
  {
  }

  lemma TwoByteForm(n: nat)
    ensures BigEndian(n, 2) == [n / 256 % 256, n % 256]
  {
    LastByte(n, 2);
    LastByte(n / 256, 1);
    assert BigEndian(n / 256 / 256, 0) == [];
    hide BigEndian;
  }

  function Value(s: Bytes): nat {
    if s == [] then 0 else Value(s[..|s| - 1]) * 256 + s[|s| - 1]
  }

  lemma {:induction false} ValueOfBigEndian(x: nat, n: nat)
    requires x < Pow256(n)
    ensures Value(BigEndian(x, n)) == x
  {
    if n == 0 {
    } else {
      ValueOfBigEndian(x / 256, n - 1);
      assert BigEndian(x, n)[..n - 1] == BigEndian(x / 256, n - 1);
    }
  }

  lemma {:induction false} BigEndianOfValue(s: Bytes)
    ensures Value(s) < Pow256(|s|)
    ensures BigEndian(Value(s), |s|) == s
  {
    if s == [] {
    } else {
      BigEndianOfValue(s[..|s| - 1]);
      assert s == s[..|s| - 1] + [s[|s| - 1]];
    }
  }

  lemma Pow256Widths()
    ensures Pow256(2) == 0x1_0000
    ensures Pow256(8) == 0x1_0000_0000_0000_0000
  {
    assert Pow256(1) == 256;
    assert Pow256(3) == 256 * Pow256(2);
    assert Pow256(4) == 256 * Pow256(3);
    assert Pow256(5) == 256 * Pow256(4);
    assert Pow256(6) == 256 * Pow256(5);
    assert Pow256(7) == 256 * Pow256(6);
  }

  /** How a little-endian machine stores the n-byte integer x. */
  function Memory(x: nat, n: nat): (s: Bytes)
    ensures |s| == n
  {
    if n == 0 then [] else [x % 256] + Memory(x / 256, n - 1)
  }

  lemma {:induction false} MemoryReversed(x: nat, n: nat, k: nat)
    requires k < n
    ensures Memory(x, n)[n - 1 - k] == BigEndian(x, n)[k]
  {
    if k >= n - 1 {
    } else {
      MemoryReversed(x / 256, n - 1, k);
    }
  }

  /** The integer a little-endian machine reads back from memory. */
  function Load(mem: Bytes): nat {
    if mem == [] then 0 else mem[0] + 256 * Load(mem[1..])
  }

  lemma {:induction false} LoadReversed(s: Bytes, mem: Bytes)
    requires |mem| == |s|
    requires forall k :: 0 <= k < |s| ==> mem[k] == s[|s| - 1 - k]
    ensures Load(mem) == Value(s)
  {
    if s == [] {
    } else {
      LoadReversed(s[..|s| - 1], mem[1..]);
    }
  }

  /** Copies the bytes of an n-byte integer out of memory, last byte first. */
  method ToBytes(data: nat, width: nat) returns (bytes: Bytes)
    ensures bytes == BigEndian(data, width)
  {
    var mem := Memory(data, width);
    bytes := [];
    var i := 1;
    while i <= width
      invariant 1 <= i <= width + 1
      invariant |bytes| == i - 1
      invariant forall k :: 0 <= k < i - 1 ==> bytes[k] == mem[width - 1 - k]
    {
      bytes := bytes + [mem[width - i]];
      i := i + 1;
    }
    forall k | 0 <= k < width
      ensures bytes[k] == BigEndian(data, width)[k]
    {
      MemoryReversed(data, width, k);
    }
  }

  /** Reverses the bytes into a scratch copy and reads it as an integer of the given width. */
  method FromBytes(bytes: Bytes, width: nat) returns (data: Option<nat>)
    ensures data == if |bytes| == width then Some(Value(bytes)) else None
  {
    if |bytes| != width {
      return None;
    }
    var copy: Bytes := [];
    var i := 0;
    while i < width
      invariant 0 <= i <= width
      invariant |copy| == i
      invariant forall k :: 0 <= k < i ==> copy[k] == bytes[width - 1 - k]
    {
      copy := copy + [bytes[width - 1 - i]];
      i := i + 1;
    }
    LoadReversed(bytes, copy);
    return Some(Load(copy));
  }

  /** Both converters are inverses: integers survive the trip through bytes and bytes through integers. */
  lemma ConverterRoundTrip(x: nat, s: Bytes)
    ensures x < Pow256(|s|) ==> Value(BigEndian(x, |s|)) == x
    ensures BigEndian(Value(s), |s|) == s
  {
    if x < Pow256(|s|) {
      ValueOfBigEndian(x, |s|);
    }
    BigEndianOfValue(s);
  }

  // ---- XOR masking ----------------------------------------------------------

  function Power2(n: nat): (p: nat)
    ensures p > 0
  {
    if n == 0 then 1 else 2 * Power2(n - 1)
  }

  /** Exclusive or of the n low bits, bit by bit. */
  function XorBits(a: nat, b: nat, n: nat): (r: nat)
    ensures r < Power2(n)
  {
    if n == 0 then 0
    else (if a % 2 != b % 2 then 1 else 0) + 2 * XorBits(a / 2, b / 2, n - 1)
  }

  function Xor(a: byte, b: byte): byte {
    assert Power2(4) == 16;
    XorBits(a, b, 8)
  }

  lemma BitAndRest(bit: nat, rest: nat)
    requires bit < 2
    ensures (bit + 2 * rest) % 2 == bit && (bit + 2 * rest) / 2 == rest
  {
  }

  lemma {:induction false} XorBitsTwice(a: nat, k: nat, n: nat)
    requires a < Power2(n)
    ensures XorBits(XorBits(a, k, n), k, n) == a
  {
    if n == 0 {
    } else {
      var bit, rest := if a % 2 != k % 2 then 1 else 0, XorBits(a / 2, k / 2, n - 1);
      BitAndRest(bit, rest);
      XorBitsTwice(a / 2, k / 2, n - 1);
      assert XorBits(bit + 2 * rest, k, n)
          == (if bit != k % 2 then 1 else 0) + 2 * XorBits(rest, k / 2, n - 1);
    }
  }

  lemma XorTwice(a: byte, k: byte)
    ensures Xor(Xor(a, k), k) == a
  {
    assert Power2(4) == 16;
    XorBitsTwice(a, k, 8);
  }

  predicate XorBit(r: byte, a: byte, k: byte, p: nat)
    requires p > 0
  {
    r / p % 2 == (a / p + k / p) % 2
  }

  /** Bit for bit, r is 1 where exactly one of a and k is. */
  predicate IsXor(r: byte, a: byte, k: byte) {
    && XorBit(r, a, k, 1) && XorBit(r, a, k, 2) && XorBit(r, a, k, 4) && XorBit(r, a, k, 8)
    && XorBit(r, a, k, 16) && XorBit(r, a, k, 32) && XorBit(r, a, k, 64) && XorBit(r, a, k, 128)
  }

  lemma ParityOfSum(a: nat, k: nat)
    ensures (a + k) % 2 == if a % 2 != k % 2 then 1 else 0
  {
    var x, y := a / 2, k / 2;
    assert a + k == 2 * (x + y) + (a % 2 + k % 2);
  }

  lemma XorBitsStep(a: nat, k: nat, n: nat)
    requires n > 0
    ensures XorBits(a, k, n) % 2 == (a + k) % 2 && XorBits(a, k, n) / 2 == XorBits(a / 2, k / 2, n - 1)
  {
    ParityOfSum(a, k);
    var bit, rest := if a % 2 != k % 2 then 1 else 0, XorBits(a / 2, k / 2, n - 1);
    BitAndRest(bit, rest);
    assert XorBits(a, k, n) == bit + 2 * rest;
  }

  function Halved(x: nat, j: nat): nat {
    if j == 0 then x else Halved(x / 2, j - 1)
  }

  lemma HalfFirst(x: nat, j: nat)
    requires j < 8
    ensures x / 2 / Power2(j) == x / (2 * Power2(j))
  {
    match j
    case 0 =>
    case 1 => assert x / 2 / 2 == x / 4;
    case 2 => assert x / 2 / 4 == x / 8;
    case 3 => assert x / 2 / 8 == x / 16;
    case 4 => assert x / 2 / 16 == x / 32;
    case 5 => assert x / 2 / 32 == x / 64;
    case 6 => assert x / 2 / 64 == x / 128;
    case 7 => assert x / 2 / 128 == x / 256;
  }

  lemma {:induction false} HalvedIs(x: nat, j: nat)
    requires j < 8
    ensures Halved(x, j) == x / Power2(j)
  {
    if j == 0 {
    } else {
      HalvedIs(x / 2, j - 1);
      HalfFirst(x, j - 1);
    }
  }

  lemma {:induction false} XorBitAt(a: nat, k: nat, n: nat, j: nat)
    requires j < n
    ensures Halved(XorBits(a, k, n), j) % 2 == (Halved(a, j) + Halved(k, j)) % 2
  {
    XorBitsStep(a, k, n);
    if j == 0 {
    } else {
      hide XorBits;
      XorBitAt(a / 2, k / 2, n - 1, j - 1);
    }
  }

  lemma XorAt(a: byte, k: byte, j: nat)
    requires j < 8
    ensures XorBit(Xor(a, k), a, k, Power2(j))
  {
    XorBitAt(a, k, 8, j);
    HalvedIs(a, j);
    HalvedIs(k, j);
    HalvedIs(Xor(a, k), j);
  }

  lemma XorIsXor(a: byte, k: byte)
    ensures IsXor(Xor(a, k), a, k)
  {
    assert Power2(0) == 1 && Power2(1) == 2 && Power2(2) == 4 && Power2(3) == 8;
    assert Power2(4) == 16 && Power2(5) == 32 && Power2(6) == 64 && Power2(7) == 128;
    hide Power2, Xor, XorBit;
    XorAt(a, k, 0);
    XorAt(a, k, 1);
    XorAt(a, k, 2);
    XorAt(a, k, 3);
    XorAt(a, k, 4);
    XorAt(a, k, 5);
    XorAt(a, k, 6);
    XorAt(a, k, 7);
  }

  /** Every byte XORed with the key byte at its position modulo four. */
  function Masked(key: Bytes, payload: Bytes): (r: Bytes)
    requires |key| == 4
    ensures |r| == |payload|
  {
    seq(|payload|, i requires 0 <= i < |payload| => Xor(payload[i], key[i % 4]))
  }

  /** Each byte of the result is the exclusive or of that byte and the key byte at its position modulo four. */
  lemma MaskedByKey(key: Bytes, payload: Bytes)
    requires |key| == 4
    ensures forall i :: 0 <= i < |payload| ==> IsXor(Masked(key, payload)[i], payload[i], key[i % 4])
  {
    hide IsXor, Xor;
    forall i | 0 <= i < |payload| ensures IsXor(Masked(key, payload)[i], payload[i], key[i % 4]) {
      XorIsXor(payload[i], key[i % 4]);
    }
  }

  lemma MaskedTwice(key: Bytes, payload: Bytes)
    requires |key| == 4
    ensures Masked(key, Masked(key, payload)) == payload
  {
    forall i | 0 <= i < |payload|
      ensures Masked(key, Masked(key, payload))[i] == payload[i]
    {
      XorTwice(payload[i], key[i % 4]);
    }
  }
}

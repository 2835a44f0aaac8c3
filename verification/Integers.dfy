/** How integers and strings are laid out in bytes (Sylar/bytearray.cc, Sylar/endian.h). */
module Integers {
  import opened Prelude
  import opened Bits

  // ---------------------------------------------------------------- base-128 varints

  function Varint(v: nat): seq<byte> {
    if v < 128 then [v] else [128 + v % 128] + Varint(v / 128)
  }

  /** A number read from the front of a byte sequence, and how many bytes that took; or the
      bytes ran out after `used` of them. */
  datatype Parsed<T> = Parsed(value: T, used: nat) | Short(used: nat)

  /** `x << n`. */
  function ShiftLeft(x: nat, n: nat): nat
    decreases n, x
  {
    if n == 0 then x else 2 * ShiftLeft(x, n - 1)
  }

  lemma {:induction false} ShiftIsProduct(x: nat, n: nat)
    ensures ShiftLeft(x, n) == x * Pow2(n)
    decreases n
  {
    if n > 0 {
      ShiftIsProduct(x, n - 1);
    }
  }

  lemma {:induction false} LowOfSmall(n: nat, x: nat)
    requires x < Pow2(n)
    ensures Low(n, x) == x
    decreases n
  {
    if n > 0 {
      LowOfSmall(n - 1, x / 2);
    }
  }

  /** Seven bits at their place in a word of `width` bits. */
  function Part(width: nat, shift: nat, b: byte): nat {
    Low(width, ShiftLeft(b % 128, shift))
  }

  /** The loop of `readUint32` and `readUint64`, from the bit `shift` of a word of `width`
      bits on. The parts of the sum have no bit in common. */
  function Unvarint(width: nat, shift: nat, bytes: seq<byte>): (r: Parsed<nat>)
    ensures r.used <= |bytes|
    ensures r.Short? ==> r.used == |bytes|
    decreases |bytes|
  {
    if shift >= width then Parsed(0, 0)
    else if bytes == [] then Short(0)
    else
      var part := Part(width, shift, bytes[0]);
      if bytes[0] < 128 then Parsed(part, 1)
      else
        match Unvarint(width, shift + 7, bytes[1..])
        case Parsed(rest, used) => Parsed(part + rest, used + 1)
        case Short(used) => Short(used + 1)
  }

  lemma {:induction false} Pow2Adds(i: nat, j: nat)
    ensures Pow2(i + j) == Pow2(i) * Pow2(j)
    decreases j
  {
    if j > 0 {
      Pow2Adds(i, j - 1);
    }
  }

  lemma Pow2Seven(i: nat)
    ensures Pow2(i + 7) == 128 * Pow2(i)
  {
    Pow2Adds(i, 7);
    assert Pow2(7) == 128;
  }

  /** The lowest seven bits of `v` at their place, and the others at theirs. */
  lemma {:induction false} ShiftSplits(v: nat, shift: nat)
    ensures ShiftLeft(v, shift) == ShiftLeft(v % 128, shift) + ShiftLeft(v / 128, shift + 7)
    decreases shift
  {
    if shift == 0 {
      ShiftIsProduct(v / 128, 7);
      assert Pow2(7) == 128;
    } else {
      ShiftSplits(v, shift - 1);
    }
  }

  lemma {:induction false} ShiftIsLarge(v: nat, shift: nat)
    requires v >= 128
    ensures ShiftLeft(v, shift) >= Pow2(shift + 7)
    decreases shift
  {
    if shift == 0 {
      assert Pow2(7) == 128;
    } else {
      ShiftIsLarge(v, shift - 1);
    }
  }

  lemma {:induction false} PartIsShift(width: nat, shift: nat, b: byte)
    requires ShiftLeft(b % 128, shift) < Pow2(width)
    ensures Part(width, shift, b) == ShiftLeft(b % 128, shift)
  {
    LowOfSmall(width, ShiftLeft(b % 128, shift));
  }

  lemma {:induction false} FitsOn(width: nat, shift: nat, v: nat)
    requires v >= 128 && ShiftLeft(v, shift) < Pow2(width)
    ensures shift + 7 < width
  {
    ShiftIsLarge(v, shift);
    Pow2Order(shift + 7, width);
  }

  lemma {:induction false} PlacedRoundTrip(width: nat, shift: nat, v: nat, rest: seq<byte>)
    requires shift < width && ShiftLeft(v, shift) < Pow2(width)
    ensures Unvarint(width, shift, Varint(v) + rest) == Parsed(ShiftLeft(v, shift), |Varint(v)|)
    decreases v
  {
    var bytes := Varint(v) + rest;
    ShiftSplits(v, shift);
    if v < 128 {
      assert bytes[0] == v == v % 128;
      PartIsShift(width, shift, v);
    } else {
      assert bytes[0] == 128 + v % 128 && bytes[1..] == Varint(v / 128) + rest;
      PartIsShift(width, shift, 128 + v % 128);
      FitsOn(width, shift, v);
      PlacedRoundTrip(width, shift + 7, v / 128, rest);
    }
  }

  /** A varint is read back whatever follows it, as long as its number fits the word. */
  lemma {:induction false} VarintRoundTrip(width: nat, shift: nat, v: nat, rest: seq<byte>)
    requires shift < width && v * Pow2(shift) < Pow2(width)
    ensures Unvarint(width, shift, Varint(v) + rest) == Parsed(v * Pow2(shift), |Varint(v)|)
  {
    ShiftIsProduct(v, shift);
    PlacedRoundTrip(width, shift, v, rest);
  }

  lemma {:induction false} VarintLength(v: nat, n: nat)
    requires n > 0 && v < Pow2(7 * n)
    ensures 0 < |Varint(v)| <= n
    decreases n
  {
    assert Pow2(7) == 128;
    if v >= 128 && n > 1 {
      Pow2Seven(7 * (n - 1));
      VarintLength(v / 128, n - 1);
    }
  }

  lemma Pow2Wide()
    ensures Pow2(31) == 0x8000_0000 && Pow2(32) == 0x1_0000_0000
    ensures Pow2(63) == 0x8000_0000_0000_0000 && Pow2(64) == 0x1_0000_0000_0000_0000
  {
    Pow2Values();
    Pow2Adds(16, 15);
    Pow2Adds(16, 16);
    Pow2Adds(32, 31);
    Pow2Adds(32, 32);
  }

  /** A 32-bit number takes at most five bytes, a 64-bit number at most ten. */
  lemma {:induction false} VarintFits(v: nat)
    ensures v < 0x1_0000_0000 ==> 0 < |Varint(v)| <= 5
    ensures v < 0x1_0000_0000_0000_0000 ==> 0 < |Varint(v)| <= 10
  {
    Pow2Wide();
    Pow2Adds(32, 3);
    Pow2Adds(64, 6);
    assert Pow2(3) == 8 && Pow2(6) == 64;
    if v < 0x1_0000_0000 {
      VarintLength(v, 5);
    }
    if v < 0x1_0000_0000_0000_0000 {
      VarintLength(v, 10);
    }
  }

  /** Each byte holds seven bits of the number, the lowest first; the highest bit of a byte says
      that more follow. There are as many bytes as the number needs, and no more. */
  lemma {:induction false} VarintForm(v: nat, i: nat)
    requires i < |Varint(v)|
    ensures Varint(v)[i] % 128 == v / Pow2(7 * i) % 128
    ensures Varint(v)[i] >= 128 <==> v / Pow2(7 * i) >= 128
    ensures Varint(v)[i] >= 128 <==> i < |Varint(v)| - 1
    decreases i
  {
    if i > 0 {
      var k := 7 * (i - 1);
      VarintForm(v / 128, i - 1);
      Pow2Seven(k);
      DivDiv(v, 128, Pow2(k));
    }
  }

  // ---------------------------------------------------------------- any bytes at all

  /** The number whose base-128 digits the bytes hold, lowest first. */
  function Septets(bytes: seq<byte>): nat {
    if bytes == [] then 0 else bytes[0] % 128 + 128 * Septets(bytes[1..])
  }

  /** Adding below the lowest set bit does not disturb the bits above. */
  lemma {:induction false} LowAdds(width: nat, s: nat, a: nat, h: nat)
    requires a < Pow2(s) && s <= width
    ensures Low(width, a + ShiftLeft(h, s)) == a + Low(width, ShiftLeft(h, s))
    decreases s
  {
    if s > 0 {
      LowAdds(width - 1, s - 1, a / 2, h);
      LowAddsStep(width, a, ShiftLeft(h, s - 1));
    }
  }

  lemma {:induction false} LowAddsStep(width: nat, a: nat, y: nat)
    requires width > 0 && Low(width - 1, a / 2 + y) == a / 2 + Low(width - 1, y)
    ensures Low(width, a + 2 * y) == a + Low(width, 2 * y)
  {
    assert (a + 2 * y) / 2 == a / 2 + y && (a + 2 * y) % 2 == a % 2;
  }

  lemma {:induction false} SeptetIsSmall(b: byte, shift: nat)
    ensures ShiftLeft(b % 128, shift) < Pow2(shift + 7)
    decreases shift
  {
    if shift == 0 {
      assert Pow2(7) == 128;
    } else {
      SeptetIsSmall(b, shift - 1);
    }
  }

  lemma {:induction false} PartsAdd(width: nat, shift: nat, b: byte, more: nat)
    requires shift + 7 <= width
    ensures Part(width, shift, b) + Low(width, ShiftLeft(more, shift + 7)) ==
      Low(width, ShiftLeft(b % 128 + 128 * more, shift))
  {
    SeptetFits(width, shift, b);
    LowAdds(width, shift + 7, ShiftLeft(b % 128, shift), more);
    JoinSeptet(b % 128, more, shift);
  }

  lemma {:induction false} SeptetFits(width: nat, shift: nat, b: byte)
    requires shift + 7 <= width
    ensures ShiftLeft(b % 128, shift) < Pow2(shift + 7)
    ensures Part(width, shift, b) == ShiftLeft(b % 128, shift)
  {
    SeptetIsSmall(b, shift);
    Pow2Order(shift + 7, width);
    PartIsShift(width, shift, b);
  }

  lemma {:induction false} JoinSeptet(low: nat, more: nat, shift: nat)
    requires low < 128
    ensures ShiftLeft(low + 128 * more, shift) == ShiftLeft(low, shift) + ShiftLeft(more, shift + 7)
  {
    var v := low + 128 * more;
    assert v % 128 == low && v / 128 == more;
    ShiftSplits(v, shift);
  }

  /** On any bytes the loop goes on as long as the highest bit says so and the word has room. */
  lemma {:induction false} UnvarintStops(width: nat, shift: nat, bytes: seq<byte>)
    ensures var r := Unvarint(width, shift, bytes);
      && (forall i :: 0 <= i < r.used - 1 ==> bytes[i] >= 128)
      && (r.used > 0 ==> shift + 7 * (r.used - 1) < width)
      && (r.Short? ==> shift + 7 * r.used < width && (bytes != [] ==> bytes[|bytes| - 1] >= 128))
      && (r.Parsed? ==> shift + 7 * r.used >= width || (r.used > 0 && bytes[r.used - 1] < 128))
    decreases |bytes|
  {
    if shift < width && bytes != [] && bytes[0] >= 128 {
      UnvarintStops(width, shift + 7, bytes[1..]);
      assert forall i :: 0 < i < |bytes| ==> bytes[i] == bytes[1..][i - 1];
    }
  }

  /** The digits that it has passed are the number, cut to the word. */
  lemma {:induction false} UnvarintValue(width: nat, shift: nat, bytes: seq<byte>)
    ensures var r := Unvarint(width, shift, bytes);
      r.Parsed? ==> r.value == Low(width, ShiftLeft(Septets(bytes[..r.used]), shift))
    decreases |bytes|
  {
    var r := Unvarint(width, shift, bytes);
    LowOfZero(width, shift);
    if shift < width && bytes != [] {
      assert bytes[..1][1..] == [];
      if bytes[0] >= 128 && shift + 7 < width {
        var rest := bytes[1..];
        UnvarintValue(width, shift + 7, rest);
        if r.Parsed? {
          assert bytes[..r.used][1..] == rest[..r.used - 1];
          PartsAdd(width, shift, bytes[0], Septets(rest[..r.used - 1]));
        }
      }
    }
  }

  lemma {:induction false} LowOfZero(width: nat, shift: nat)
    ensures ShiftLeft(0, shift) == 0 && Low(width, 0) == 0
  {
    ShiftIsProduct(0, shift);
    LowOfSmall(width, 0);
  }

  lemma {:induction false} LowIsMod(width: nat, x: nat)
    ensures Low(width, x) == x % Pow2(width)
  {
    if width > 0 {
      LowIsMod(width - 1, x / 2);
      ModHalves(x, Pow2(width - 1));
    }
  }

  /** Every sequence of bytes is read as the numbers modulo the word that their digits spell, up
      to the first byte without the mark or the last byte that reaches into the word. */
  lemma {:induction false} EveryVarintIsRead(width: nat, bytes: seq<byte>)
    requires width > 0
    ensures var r := Unvarint(width, 0, bytes);
      && (forall i :: 0 <= i < r.used - 1 ==> bytes[i] >= 128)
      && (r.Parsed? ==>
            && 0 < r.used && 7 * (r.used - 1) < width
            && (bytes[r.used - 1] < 128 || 7 * r.used >= width)
            && r.value == Septets(bytes[..r.used]) % Pow2(width))
      && (r.Short? ==>
            r.used == |bytes| && 7 * r.used < width && (bytes != [] ==> bytes[|bytes| - 1] >= 128))
  {
    UnvarintStops(width, 0, bytes);
    UnvarintValue(width, 0, bytes);
    var r := Unvarint(width, 0, bytes);
    LowIsMod(width, Septets(bytes[..r.used]));
  }

  // ---------------------------------------------------------------- zigzag

  predicate IsSigned(width: nat, v: int)
    requires width > 0
  {
    0 <= v + Pow2(width - 1) && v < Pow2(width - 1)
  }

  /** The signed number with the bit pattern `u`. */
  function Signed(width: nat, u: nat): int
    requires width > 0
  {
    var x: int := u;
    if u >= Pow2(width - 1) then x - Pow2(width) else x
  }

  predicate IsLowest(width: nat, v: int)
    requires width > 0
  {
    v + Pow2(width - 1) == 0
  }

  /** What `(uint32_t)(-v)` gives for a negative number. The negative of the lowest number is
      no signed number: the source leaves open what comes of it, which is `lowest` here. */
  function Negated(width: nat, v: int, lowest: nat): nat
    requires width > 0 && v < 0
  {
    if IsLowest(width, v) then lowest else -v
  }

  function ZigzagEncode(width: nat, v: int, lowest: nat): nat
    requires width > 0
  {
    (if v < 0 then Negated(width, v, lowest) * 2 - 1 else v * 2) % Pow2(width)
  }

  function ZigzagDecode(width: nat, u: nat): int
    requires width > 0
  {
    Signed(width, Xor(u / 2, if u % 2 == 1 then Pow2(width) - 1 else 0))
  }

  /** Exclusive or with all ones is the complement. */
  lemma {:induction false} XorOnes(width: nat, x: nat)
    requires x < Pow2(width)
    ensures Xor(x, Pow2(width) - 1) == Pow2(width) - 1 - x
    decreases width
  {
    if width > 0 {
      OnesSplit(Pow2(width - 1));
      XorOnes(width - 1, x / 2);
      XorStep(x, Pow2(width) - 1);
      OddComplement(x, Xor(x, Pow2(width) - 1), Pow2(width - 1));
    }
  }

  lemma OnesSplit(half: nat)
    requires half > 0
    ensures (2 * half - 1) / 2 == half - 1 && (2 * half - 1) % 2 == 1
  {
  }

  lemma OddComplement(x: nat, y: nat, half: nat)
    requires half > 0 && y / 2 == half - 1 - x / 2 && y % 2 == (x % 2 + 1) % 2
    ensures y == 2 * half - 1 - x
  {
  }

  lemma {:induction false} XorZero(x: nat)
    ensures Xor(x, 0) == x
  {
    if x > 0 {
      XorZero(x / 2);
    }
  }

  lemma {:induction false} DecodedIs(width: nat, u: nat)
    requires width > 0 && u < Pow2(width)
    ensures ZigzagDecode(width, u) == if u % 2 == 1 then 0 - u / 2 - 1 else u / 2
  {
    assert Pow2(width) == 2 * Pow2(width - 1);
    XorOnes(width, u / 2);
    XorZero(u / 2);
  }

  lemma EncodedIs(width: nat, v: int, lowest: nat)
    requires width > 0 && IsSigned(width, v) && !IsLowest(width, v)
    ensures ZigzagEncode(width, v, lowest) == if v < 0 then -v * 2 - 1 else v * 2
  {
    assert Pow2(width) == 2 * Pow2(width - 1);
    SmallMod(if v < 0 then -v * 2 - 1 else v * 2, Pow2(width));
  }

  lemma SmallMod(u: nat, m: nat)
    requires u < m
    ensures u % m == u
  {
  }

  lemma OddMod(n: nat, half: nat, m: nat)
    requires half > 0 && m == 2 * half && n < m
    ensures 0 <= (n * 2 - 1) % m < m
    ensures (n * 2 - 1) % m == m - 1 <==> n == 0 || n == half
  {
    var x: int := n * 2 - 1;
    if n == 0 {
      assert x == -1 * m + (m - 1);
    } else if n <= half {
      SmallMod(n * 2 - 1, m);
    } else {
      assert x == m + (x - m) && 0 <= x - m < m - 1;
    }
  }

  /** A machine that wraps around, or gives 0, makes of the lowest number what decodes to it. */
  predicate LowestIsKept(width: nat, v: int, lowest: nat)
    requires width > 0
  {
    IsLowest(width, v) ==> lowest == 0 || lowest == Pow2(width - 1)
  }

  lemma {:induction false} EncodedIsOdd(width: nat, v: int, lowest: nat)
    requires width > 0 && IsLowest(width, v) && lowest < Pow2(width)
    ensures ZigzagEncode(width, v, lowest) < Pow2(width)
    ensures ZigzagEncode(width, v, lowest) == Pow2(width) - 1 <==> LowestIsKept(width, v, lowest)
  {
    OddMod(lowest, Pow2(width - 1), Pow2(width));
  }

  /** Decoding inverts encoding for every number but the lowest, and for that if and only if
      its negation wraps around, or gives 0. */
  lemma {:induction false} ZigzagRoundTrip(width: nat, v: int, lowest: nat)
    requires width > 0 && IsSigned(width, v) && lowest < Pow2(width)
    ensures ZigzagEncode(width, v, lowest) < Pow2(width)
    ensures ZigzagDecode(width, ZigzagEncode(width, v, lowest)) == v <==> LowestIsKept(width, v, lowest)
  {
    if IsLowest(width, v) {
      EncodedIsOdd(width, v, lowest);
    } else {
      EncodedIs(width, v, lowest);
    }
    CodeOf(width, v, ZigzagEncode(width, v, lowest));
  }

  /** The one code of a signed number. */
  lemma {:induction false} CodeOf(width: nat, v: int, u: nat)
    requires width > 0 && IsSigned(width, v)
    ensures (if v < 0 then -v * 2 - 1 else v * 2) < Pow2(width)
    ensures u < Pow2(width) ==> (ZigzagDecode(width, u) == v <==> u == if v < 0 then -v * 2 - 1 else v * 2)
  {
    assert Pow2(width) == 2 * Pow2(width - 1);
    if u < Pow2(width) {
      DecodedIs(width, u);
      HalvesDecide(v, u);
    }
  }

  lemma HalvesDecide(v: int, u: nat)
    ensures (if u % 2 == 1 then 0 - u / 2 - 1 else u / 2) == v <==> u == if v < 0 then -v * 2 - 1 else v * 2
  {
    assert u == 2 * (u / 2) + u % 2;
  }

  lemma {:induction false} ZigzagIsOnto(width: nat, u: nat, lowest: nat)
    requires width > 0 && u < Pow2(width) && lowest < Pow2(width)
    ensures IsSigned(width, ZigzagDecode(width, u))
    ensures ZigzagEncode(width, ZigzagDecode(width, u), lowest) == u <==>
      LowestIsKept(width, ZigzagDecode(width, u), lowest)
  {
    var half, v := Pow2(width - 1), ZigzagDecode(width, u);
    assert Pow2(width) == 2 * half;
    DecodedIs(width, u);
    if IsLowest(width, v) {
      EncodedIsOdd(width, v, lowest);
    } else {
      EncodedIs(width, v, lowest);
    }
  }

  // ---------------------------------------------------------------- fixed width

  datatype Order = Little | Big

  function LowFirst(n: nat, v: nat): (bytes: seq<byte>)
    ensures |bytes| == n
    decreases n, v
  {
    if n == 0 then [] else [v % 256] + LowFirst(n - 1, v / 256)
  }

  function ValueOf(bytes: seq<byte>): nat {
    if bytes == [] then 0 else bytes[0] + 256 * ValueOf(bytes[1..])
  }

  function Reversed(bytes: seq<byte>): (r: seq<byte>)
    ensures |r| == |bytes| && forall i :: 0 <= i < |bytes| ==> r[i] == bytes[|bytes| - 1 - i]
  {
    if bytes == [] then [] else Reversed(bytes[1..]) + [bytes[0]]
  }

  function Power256(n: nat): nat {
    if n == 0 then 1 else 256 * Power256(n - 1)
  }

  /** How a machine of the given byte order holds a number in memory. */
  function Memory(host: Order, n: nat, v: nat): (bytes: seq<byte>)
    ensures |bytes| == n
  {
    if host.Little? then LowFirst(n, v) else Reversed(LowFirst(n, v))
  }

  function FromMemory(host: Order, bytes: seq<byte>): nat {
    ValueOf(if host.Little? then bytes else Reversed(bytes))
  }

  /** `byteswap`. */
  function Swap(n: nat, v: nat): nat {
    ValueOf(Reversed(LowFirst(n, v)))
  }

  /** The bytes that the `writeF` functions write on a host. */
  function Fixed(order: Order, host: Order, n: nat, v: nat): (bytes: seq<byte>)
    ensures |bytes| == n
  {
    Memory(host, n, if order == host then v else Swap(n, v))
  }

  /** The number that the `readF` functions make of them. */
  function Unfixed(order: Order, host: Order, bytes: seq<byte>): nat {
    var v := FromMemory(host, bytes);
    if order == host then v else Swap(|bytes|, v)
  }

  lemma {:induction false} LowFirstOfValue(bytes: seq<byte>)
    ensures LowFirst(|bytes|, ValueOf(bytes)) == bytes
  {
    if bytes != [] {
      LowFirstOfValue(bytes[1..]);
      assert ValueOf(bytes) % 256 == bytes[0] && ValueOf(bytes) / 256 == ValueOf(bytes[1..]);
      assert bytes == [bytes[0]] + bytes[1..];
    }
  }

  lemma {:induction false} ValueOfLowFirst(n: nat, v: nat)
    requires v < Power256(n)
    ensures ValueOf(LowFirst(n, v)) == v
    decreases n
  {
    if n > 0 {
      ValueOfLowFirst(n - 1, v / 256);
      assert LowFirst(n, v)[1..] == LowFirst(n - 1, v / 256);
    }
  }

  lemma {:induction false} ReversedTwice(bytes: seq<byte>)
    ensures Reversed(Reversed(bytes)) == bytes
  {
  }

  /** The bytes depend on the chosen order only, not on the machine. */
  lemma FixedIsPortable(order: Order, host: Order, n: nat, v: nat)
    ensures Fixed(order, host, n, v) == Memory(order, n, v)
  {
    var bytes := LowFirst(n, v);
    if order != host {
      LowFirstOfValue(Reversed(bytes));
      ReversedTwice(bytes);
    }
  }

  /** What one machine writes another one reads. */
  lemma {:induction false} FixedRoundTrip(order: Order, writer: Order, reader: Order, n: nat, v: nat)
    requires v < Power256(n)
    ensures Unfixed(order, reader, Fixed(order, writer, n, v)) == v
  {
    FixedIsPortable(order, writer, n, v);
    var bytes := LowFirst(n, v);
    ValueOfLowFirst(n, v);
    ReversedTwice(bytes);
    if order != reader {
      LowFirstOfValue(Reversed(bytes));
    }
  }

  lemma {:induction false} LowFirstForm(n: nat, v: nat, i: nat)
    requires i < n
    ensures Power256(i) > 0 && LowFirst(n, v)[i] == v / Power256(i) % 256
    decreases i
  {
    if i > 0 {
      LowFirstForm(n - 1, v / 256, i - 1);
      Power256Positive(i - 1);
      DivDiv(v, 256, Power256(i - 1));
    }
  }

  /** Little endian puts the lowest byte first, and big endian the highest. */
  lemma {:induction false} MemoryForm(n: nat, v: nat, i: nat)
    requires i < n
    ensures Power256(i) > 0
    ensures Memory(Little, n, v)[i] == v / Power256(i) % 256
    ensures Memory(Big, n, v)[n - 1 - i] == v / Power256(i) % 256
    ensures Memory(Little, n, v)[0] == Memory(Big, n, v)[n - 1] == v % 256
  {
    Power256Positive(i);
    LowFirstForm(n, v, i);
  }

  lemma {:induction false} Power256Positive(n: nat)
    ensures Power256(n) > 0
  {
    if n > 0 {
      Power256Positive(n - 1);
    }
  }
}

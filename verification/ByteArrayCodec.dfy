/** Numbers and strings in a byte array (Sylar/bytearray.cc). */
module ByteArrayCodec {
  import opened Prelude
  import opened Bits
  import opened Blocks
  import opened ByteArrays
  import opened Integers

  /** `writeUint32` and `writeUint64`: the bytes go through a small buffer. */
  method WriteVarint(ba: ByteArray, v: nat)
    requires ba.Valid()
    modifies ba, ba.nodes, ba.Buffers()
    ensures ba.Wrote(Varint(v))
  {
    var tmp, rest := [], v;
    while rest >= 128
      invariant tmp + Varint(rest) == Varint(v)
    {
      tmp := tmp + [128 + rest % 128];
      rest := rest / 128;
    }
    tmp := tmp + [rest];
    ba.Write(tmp);
  }

  /** What is left to read. */
  ghost function Ahead(ba: ByteArray): (r: seq<byte>)
    requires ba.position <= ba.size <= |ba.Bytes()|
    reads ba`blocks, ba`size, ba`position
    ensures |r| == ba.size - ba.position
  {
    ba.Visible()[ba.position..]
  }

  /** Reads one byte. */
  method ReadByte(ba: ByteArray) returns (status: Status, b: byte)
    requires ba.Valid()
    modifies ba`position, ba`cur, ba`index
    ensures ba.Valid()
    ensures old(Ahead(ba)) == [] ==> status == OutOfRange && ba.position == old(ba.position)
    ensures old(Ahead(ba)) != [] ==> status == Done && b == old(Ahead(ba)[0]) && ba.position == old(ba.position) + 1
    ensures ba.Visible() == old(ba.Visible())
  {
    var data;
    status, data := ba.Read(1);
    b := if status == Done then data[0] else 0;
  }

  /** What has been read so far, put before what is read next. */
  function Onto(v: nat, used: nat, next: Parsed<nat>): Parsed<nat> {
    match next
    case Parsed(x, u) => Parsed(v + x, used + u)
    case Short(u) => Short(used + u)
  }

  /** `readUint32` and `readUint64`. Bytes that were read before the data ran out stay read. */
  method ReadVarint(ba: ByteArray, width: nat) returns (status: Status, v: nat)
    requires ba.Valid()
    modifies ba`position, ba`cur, ba`index
    ensures ba.Valid()
    ensures var r := Unvarint(width, 0, old(Ahead(ba)));
      && ba.position == old(ba.position) + r.used
      && ba.Visible() == old(ba.Visible())
      && status == (if r.Parsed? then Done else OutOfRange)
      && (r.Parsed? ==> v == r.value)
  {
    ghost var all := ba.Visible();
    assert Ahead(ba) == After(all, ba.position);
    status, v := ReadGroups(ba, width, all, (shift: nat, pos: nat) => Unvarint(width, shift, After(all, pos)));
  }

  /** What is left of the whole from a position on. */
  function After(all: seq<byte>, pos: nat): seq<byte> {
    if pos <= |all| then all[pos..] else []
  }

  /** What is made of the groups of seven bits, from a bit of the word and a position on. */
  type GroupDecoder = (nat, nat) -> Parsed<nat>

  ghost predicate Decodes(decode: GroupDecoder, width: nat, all: seq<byte>) {
    forall shift: nat, pos: nat {:trigger Unvarint(width, shift, After(all, pos))} ::
      decode(shift, pos) == Unvarint(width, shift, After(all, pos))
  }

  lemma DecodeEnds(decode: GroupDecoder, width: nat, all: seq<byte>, shift: nat, pos: nat)
    requires Decodes(decode, width, all) && shift >= width
    ensures decode(shift, pos) == Parsed(0, 0)
  {
    assert Unvarint(width, shift, After(all, pos)) == Parsed(0, 0);
  }

  /** The loop over the groups of seven bits. */
  method ReadGroups(ba: ByteArray, width: nat, ghost all: seq<byte>, ghost decode: GroupDecoder)
    returns (status: Status, v: nat)
    requires ba.Valid() && all == ba.Visible() && Decodes(decode, width, all)
    modifies ba`position, ba`cur, ba`index
    ensures var r := decode(0, old(ba.position));
      && ba.Valid() && ba.position == old(ba.position) + r.used
      && status == (if r.Parsed? then Done else OutOfRange)
      && (r.Parsed? ==> v == r.value)
  {
    ghost var start, r := ba.position, decode(0, ba.position);
    var shift, more := 0, true;
    v, status := 0, Done;
    while more && shift < width
      invariant ba.Valid() && start <= ba.position
      invariant status == Done || status == OutOfRange
      invariant if more then status == Done && r == Onto(v, ba.position - start, decode(shift, ba.position))
        else r == if status == Done then Parsed(v, ba.position - start) else Short(ba.position - start)
      decreases more, width - shift
    {
      status, v, more := ReadGroup(ba, width, shift, v, all, ba.position - start, r, decode);
      shift := shift + 7;
    }
    if more {
      DecodeEnds(decode, width, all, shift, ba.position);
    }
  }

  /** One turn of that loop: seven bits, and whether more will follow. */
  method ReadGroup(ba: ByteArray, width: nat, shift: nat, v: nat, ghost all: seq<byte>, ghost used: nat,
                   ghost r: Parsed<nat>, ghost decode: GroupDecoder)
    returns (status: Status, v': nat, more: bool)
    requires ba.Valid() && all == ba.Visible() && shift < width && Decodes(decode, width, all)
    requires r == Onto(v, used, decode(shift, ba.position))
    modifies ba`position, ba`cur, ba`index
    ensures ba.Valid() && ba.position == old(ba.position) + if old(ba.position) < |all| then 1 else 0
    ensures status == (if old(ba.position) < |all| then Done else OutOfRange)
    ensures status != Done ==> !more && r == Short(used)
    ensures status == Done && !more ==> r == Parsed(v', used + 1)
    ensures status == Done && more ==> r == Onto(v', used + 1, decode(shift + 7, ba.position))
  {
    DecodeStep(decode, width, all, shift, ba.position, v, used);
    var b;
    status, b := ReadByte(ba);
    more := status == Done && b >= 128;
    v' := if status == Done then v + Part(width, shift, b) else v;
  }

  lemma DecodeStep(
      decode: GroupDecoder, width: nat, all: seq<byte>, shift: nat, pos: nat, v: nat, used: nat)
    requires shift < width && Decodes(decode, width, all)
    ensures Onto(v, used, decode(shift, pos)) ==
      if pos >= |all| then Short(used)
      else if all[pos] < 128 then Parsed(v + Part(width, shift, all[pos]), used + 1)
      else Onto(v + Part(width, shift, all[pos]), used + 1, decode(shift + 7, pos + 1))
  {
    UnvarintStep(width, shift, After(all, pos), v, used);
    AfterOne(all, pos);
    assert decode(shift, pos) == Unvarint(width, shift, After(all, pos));
    assert decode(shift + 7, pos + 1) == Unvarint(width, shift + 7, After(all, pos + 1));
  }

  lemma AfterOne(all: seq<byte>, pos: nat)
    ensures After(all, pos) == [] <==> pos >= |all|
    ensures pos < |all| ==> After(all, pos)[0] == all[pos] && After(all, pos)[1..] == After(all, pos + 1)
  {
  }

  lemma UnvarintStep(width: nat, shift: nat, ahead: seq<byte>, v: nat, used: nat)
    requires shift < width
    ensures Onto(v, used, Unvarint(width, shift, ahead)) ==
      if ahead == [] then Short(used)
      else if ahead[0] < 128 then Parsed(v + Part(width, shift, ahead[0]), used + 1)
      else Onto(v + Part(width, shift, ahead[0]), used + 1, Unvarint(width, shift + 7, ahead[1..]))
  {
  }

  lemma {:induction false} Varint32(v: nat, rest: seq<byte>)
    requires v < TWO_32
    ensures Unvarint(32, 0, Varint(v) + rest) == Parsed(v, |Varint(v)|)
  {
    Pow2Wide();
    VarintRoundTrip(32, 0, v, rest);
  }

  lemma {:induction false} Varint64(v: nat, rest: seq<byte>)
    requires v < TWO_64
    ensures Unvarint(64, 0, Varint(v) + rest) == Parsed(v, |Varint(v)|)
  {
    Pow2Wide();
    VarintRoundTrip(64, 0, v, rest);
  }

  // ---------------------------------------------------------------- strings

  /** `writeStringVint`. */
  method WriteStringVint(ba: ByteArray, s: seq<byte>)
    requires ba.Valid()
    modifies ba, ba.nodes, ba.Buffers()
    ensures ba.Wrote(Varint(|s|) + s)
  {
    ghost var was, start := ba.Visible(), ba.position;
    WriteVarint(ba, |s|);
    WrittenThen(was, start, Varint(|s|), ba.Visible(), ba.position, s, Varint(|s|) + s);
    ba.Write(s);
  }

  /** What `readStringVint` comes to; `full` says that there is no room after the data. */
  datatype Outcome = Text(text: seq<byte>, used: nat) | Failed(status: Status, used: nat)

  function StringAhead(ahead: seq<byte>, full: bool): (r: Outcome)
    ensures r.used <= |ahead|
  {
    match Unvarint(64, 0, ahead)
    case Short(u) => Failed(OutOfRange, u)
    case Parsed(n, u) => TextAt(ahead, u, n, full)
  }

  method ReadStringVint(ba: ByteArray) returns (status: Status, s: seq<byte>)
    requires ba.Valid()
    modifies ba`position, ba`cur, ba`index
    ensures ba.Valid()
    ensures var r := StringAhead(old(Ahead(ba)), ba.size == ba.capacity);
      && ba.position == old(ba.position) + r.used
      && ba.Visible() == old(ba.Visible())
      && status == (if r.Text? then Done else r.status)
      && (r.Text? ==> s == r.text)
    // All of the text that the length announces, or none of it.
    ensures var ahead := old(Ahead(ba));
      var r := Unvarint(64, 0, ahead);
      && (status == OutOfRange <==> r.Short? || r.value > |ahead| - r.used)
      && (status == Done ==>
            r.Parsed? && r.used + r.value <= |ahead| && s == ahead[r.used..r.used + r.value])
  {
    ghost var start, ahead, full := ba.position, Ahead(ba), ba.size == ba.capacity;
    var n;
    status, n := ReadVarint(ba, 64);
    s := [];
    if status == Done {
      status, s := ReadAfter(ba, n, start, ahead, full);
    }
  }

  /** The text of `len` bytes after the first `used` bytes of `ahead`. */
  function TextAt(ahead: seq<byte>, used: nat, len: nat, full: bool): (r: Outcome)
    requires used <= |ahead|
    ensures used <= r.used <= |ahead|
  {
    if len > |ahead| - used then Failed(OutOfRange, used)
    else if used == |ahead| && full then Failed(NullBlock, used)
    else Text(ahead[used..used + len], used + len)
  }

  /** Reads the text of `len` bytes after the first `used` bytes of what was ahead at `start`. */
  method ReadAfter(ba: ByteArray, len: nat, ghost start: nat, ghost ahead: seq<byte>, ghost full: bool)
    returns (status: Status, s: seq<byte>)
    requires ba.Valid() && start <= ba.position && ahead == ba.Visible()[start..]
    requires full == (ba.size == ba.capacity)
    modifies ba`position, ba`cur, ba`index
    ensures ba.Valid()
    ensures var r := TextAt(ahead, old(ba.position) - start, len, full);
      && ba.position == start + r.used
      && ba.Visible() == old(ba.Visible())
      && status == (if r.Text? then Done else r.status)
      && (r.Text? ==> s == r.text)
  {
    SliceAfter(ba.Visible(), start, ba.position - start, len);
    status, s := ReadText(ba, len);
  }

  lemma SliceAfter(all: seq<byte>, start: nat, used: nat, len: nat)
    requires start + used <= |all|
    ensures start + used + len <= |all| ==> all[start..][used..used + len] == all[start + used..start + used + len]
  {
  }

  lemma PrefixAfter(all: seq<byte>, start: nat, n: nat)
    requires start <= |all|
    ensures start + n <= |all| ==> all[start..][..n] == all[start..start + n]
  {
  }

  /** `read` in terms of what is ahead. */
  method ReadText(ba: ByteArray, n: nat) returns (status: Status, s: seq<byte>)
    requires ba.Valid()
    modifies ba`position, ba`cur, ba`index
    ensures ba.Valid() && ba.Visible() == old(ba.Visible())
    ensures var at := old(ba.position);
      if n > ba.size - at then status == OutOfRange && ba.position == at
      else if at == ba.size == ba.capacity then status == NullBlock && ba.position == at
      else status == Done && s == ba.Visible()[at..at + n] && ba.position == at + n
  {
    status, s := ba.Read(n);
  }

  // ---------------------------------------------------------------- fixed-width numbers

  /** The `writeF` functions. */
  method WriteFixed(ba: ByteArray, order: Order, host: Order, n: nat, v: nat)
    requires ba.Valid()
    modifies ba, ba.nodes, ba.Buffers()
    ensures ba.Wrote(Fixed(order, host, n, v))
  {
    ba.Write(Memory(host, n, if order == host then v else Swap(n, v)));
  }

  /** The `readF` functions. */
  method ReadFixed(ba: ByteArray, order: Order, host: Order, n: nat) returns (status: Status, v: nat)
    requires ba.Valid() && n > 0
    modifies ba`position, ba`cur, ba`index
    ensures ba.Valid()
    ensures ba.Visible() == old(ba.Visible())
    ensures var ahead := old(Ahead(ba));
      if n > |ahead| then status == OutOfRange && ba.position == old(ba.position)
      else status == Done && v == Unfixed(order, host, ahead[..n]) && ba.position == old(ba.position) + n
  {
    PrefixAfter(ba.Visible(), ba.position, n);
    var bytes;
    status, bytes := ReadText(ba, n);
    v := if status == Done then Unfixed(order, host, bytes) else 0;
  }

  // ---------------------------------------------------------------- strings after a fixed-width length

  /** `writeStringF16` and its wider forms: the length is cut to `n` bytes, the text is not. */
  function CountedText(order: Order, host: Order, n: nat, s: seq<byte>): seq<byte> {
    Power256Positive(n);
    Fixed(order, host, n, |s| % Power256(n)) + s
  }

  method WriteStringF(ba: ByteArray, order: Order, host: Order, n: nat, s: seq<byte>)
    requires ba.Valid()
    modifies ba, ba.nodes, ba.Buffers()
    ensures ba.Wrote(CountedText(order, host, n, s))
    ensures Power256(n) > 0 && CountedText(order, host, n, s) == Memory(order, n, |s| % Power256(n)) + s
  {
    Power256Positive(n);
    FixedIsPortable(order, host, n, |s| % Power256(n));
    ghost var was, start, head := ba.Visible(), ba.position, Fixed(order, host, n, |s| % Power256(n));
    WriteFixed(ba, order, host, n, |s| % Power256(n));
    WrittenThen(was, start, head, ba.Visible(), ba.position, s, head + s);
    ba.Write(s);
  }

  /** What `readStringF16` and its wider forms come to; `full` says that there is no room
      after the data. */
  function TextAhead(order: Order, host: Order, n: nat, ahead: seq<byte>, full: bool): (r: Outcome)
    ensures r.used <= |ahead|
  {
    if |ahead| < n then Failed(OutOfRange, 0)
    else TextAt(ahead, n, Unfixed(order, host, ahead[..n]), full)
  }

  method ReadStringF(ba: ByteArray, order: Order, host: Order, n: nat) returns (status: Status, s: seq<byte>)
    requires ba.Valid() && n > 0
    modifies ba`position, ba`cur, ba`index
    ensures ba.Valid()
    ensures var r := TextAhead(order, host, n, old(Ahead(ba)), ba.size == ba.capacity);
      && ba.position == old(ba.position) + r.used
      && ba.Visible() == old(ba.Visible())
      && status == (if r.Text? then Done else r.status)
      && (r.Text? ==> s == r.text)
  {
    ghost var start, ahead, full := ba.position, Ahead(ba), ba.size == ba.capacity;
    ghost var r := TextAhead(order, host, n, ahead, full);
    var len;
    status, len := ReadFixed(ba, order, host, n);
    if status != Done {
      return status, [];
    }
    assert r == TextAt(ahead, n, len, full);
    status, s := ReadAfter(ba, len, start, ahead, full);
  }

  /** The text is all that the length announces, or none is read. */
  lemma TextIsWhole(order: Order, host: Order, n: nat, ahead: seq<byte>, full: bool)
    ensures var r := TextAhead(order, host, n, ahead, full);
      && (r.Failed? && r.status == OutOfRange <==> |ahead| < n || Unfixed(order, host, ahead[..n]) > |ahead| - n)
      && (r.Text? ==>
            && |r.text| == Unfixed(order, host, ahead[..n])
            && r.used == n + |r.text| && r.text == ahead[n..r.used])
  {
  }

  lemma TextAfter(order: Order, host: Order, head: seq<byte>, s: seq<byte>, rest: seq<byte>, len: nat, full: bool)
    requires Unfixed(order, host, head) == len <= |s|
    ensures TextAhead(order, host, |head|, (head + s) + rest, full) ==
      if s == [] && rest == [] && full then Failed(NullBlock, |head|) else Text(s[..len], |head| + len)
  {
    var ahead := (head + s) + rest;
    assert ahead[..|head|] == head;
    assert ahead[|head|..|head| + len] == s[..len];
  }

  lemma CutLength(a: nat, m: nat)
    requires m > 0
    ensures a % m <= a && a % m < m && (a % m == a <==> a < m)
  {
    if a >= m {
      UniqueRemainder(a, m, a / m, a % m);
    }
  }

  /** The text is read back if and only if its length fits, and it is not an empty text at the
      very end of data that fill their blocks. */
  lemma {:induction false} CountedTextExactly(
      order: Order, writer: Order, reader: Order, n: nat, s: seq<byte>, rest: seq<byte>, full: bool)
    ensures TextAhead(order, reader, n, CountedText(order, writer, n, s) + rest, full) == Text(s, n + |s|)
      <==> |s| < Power256(n) && !(s == [] && rest == [] && full)
  {
    Power256Positive(n);
    var len := |s| % Power256(n);
    CutLength(|s|, Power256(n));
    FixedRoundTrip(order, writer, reader, n, len);
    TextAfter(order, reader, Fixed(order, writer, n, len), s, rest, len, full);
    assert s[..|s|] == s;
  }

  /** An empty text at the end of full blocks is not read back, and neither is one of 256^n bytes. */
  lemma {:induction false} CountedTextCanFail(
      order: Order, writer: Order, reader: Order, n: nat, s: seq<byte>, rest: seq<byte>)
    requires |s| == Power256(n)
    ensures TextAhead(order, reader, n, CountedText(order, writer, n, []), true) == Failed(NullBlock, n)
    ensures TextAhead(order, reader, n, CountedText(order, writer, n, s) + rest, false) != Text(s, n + |s|)
  {
    CountedTextExactly(order, writer, reader, n, s, rest, false);
    Power256Positive(n);
    FixedRoundTrip(order, writer, reader, n, 0);
    TextAfter(order, reader, Fixed(order, writer, n, 0), [], [], 0, true);
    assert (Fixed(order, writer, n, 0) + []) + [] == CountedText(order, writer, n, []);
  }

  // ---------------------------------------------------------------- signed varints

  /** What `writeInt32` and `writeInt64` write is read back by `readInt32` and `readInt64`,
      whatever follows it, for the same numbers for which zigzag decoding inverts encoding. */
  lemma {:induction false} SignedVarintExactly(width: nat, v: int, lowest: nat, rest: seq<byte>)
    requires width > 0 && IsSigned(width, v) && lowest < Pow2(width)
    ensures var bytes := Varint(ZigzagEncode(width, v, lowest));
      var r := Unvarint(width, 0, bytes + rest);
      r.Parsed? && r.used == |bytes| && (ZigzagDecode(width, r.value) == v <==> LowestIsKept(width, v, lowest))
  {
    ZigzagRoundTrip(width, v, lowest);
    VarintRoundTrip(width, 0, ZigzagEncode(width, v, lowest), rest);
    assert Pow2(0) == 1;
  }
}

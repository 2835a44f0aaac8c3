/** Requests, responses and notifications (Sylar/protocol.cc). */
module Messages {
  import opened Prelude
  import opened Bits
  import opened Blocks
  import opened ByteArrays
  import opened Integers
  import opened ByteArrayCodec

  datatype Message =
    | Request(sn: nat, cmd: nat)
    | Response(sn: nat, cmd: nat, result: nat, text: seq<byte>)
    | Notify(notify: nat)

  /** The fields are 32-bit numbers, and the length of the text is a 64-bit number. */
  predicate Sendable(m: Message) {
    && (forall i :: 0 <= i < |Fields(m)| ==> Fields(m)[i] < TWO_32)
    && (m.Response? ==> |m.text| < TWO_64)
  }

  function TypeByte(m: Message): byte {
    match m
    case Request(_, _) => 1
    case Response(_, _, _, _) => 2
    case Notify(_) => 3
  }

  function Fields(m: Message): seq<nat> {
    match m
    case Request(sn, cmd) => [sn, cmd]
    case Response(sn, cmd, result, _) => [sn, cmd, result]
    case Notify(notify) => [notify]
  }

  function FieldCount(t: byte): nat {
    if t == 1 then 2 else if t == 2 then 3 else 1
  }

  function Varints(fs: seq<nat>): seq<byte> {
    if fs == [] then [] else Varint(fs[0]) + Varints(fs[1..])
  }

  function Tail(m: Message): seq<byte> {
    if m.Response? then Varint(|m.text|) + m.text else []
  }

  /** `serializeToByteArray`. */
  function Encoded(m: Message): seq<byte> {
    [TypeByte(m)] + Body(m)
  }

  function Body(m: Message): seq<byte> {
    Varints(Fields(m)) + Tail(m)
  }

  /** What goes over the wire, kind by kind. */
  lemma WireForm(m: Message)
    ensures Encoded(m) ==
      match m
      case Request(sn, cmd) => [1] + Varint(sn) + Varint(cmd)
      case Response(sn, cmd, result, text) =>
        [2] + Varint(sn) + Varint(cmd) + Varint(result) + Varint(|text|) + text
      case Notify(notify) => [3] + Varint(notify)
  {
    match m
    case Request(sn, cmd) =>
      VarintsStep(sn, [cmd]);
      VarintsStep(cmd, []);
      Flatten([1], Varint(sn), Varint(cmd), [], []);
    case Response(sn, cmd, result, text) =>
      VarintsStep(sn, [cmd, result]);
      VarintsStep(cmd, [result]);
      VarintsStep(result, []);
      Flatten([2], Varint(sn), Varint(cmd), Varint(result), Varint(|text|) + text);
      Regroup([2] + Varint(sn) + Varint(cmd) + Varint(result), Varint(|text|), text);
    case Notify(notify) =>
      VarintsStep(notify, []);
  }

  lemma Flatten(t: seq<byte>, a: seq<byte>, b: seq<byte>, c: seq<byte>, d: seq<byte>)
    ensures t + ((a + (b + (c + []))) + d) == t + a + b + c + d
  {
  }

  lemma VarintsStep(f: nat, fs: seq<nat>)
    ensures Varints([f] + fs) == Varint(f) + Varints(fs)
  {
    assert ([f] + fs)[1..] == fs;
  }

  function EncodedAll(ms: seq<Message>): seq<byte> {
    if ms == [] then [] else Encoded(ms[0]) + EncodedAll(ms[1..])
  }

  // ---------------------------------------------------------------- reading

  datatype Received<T> = Got(value: T, used: nat) | Broken(status: Status, used: nat) | UnknownType(used: nat)

  // The decoders go by the position in the whole, as the byte array does. Each of them takes the
  // ones that it is made of as parameters, and says how many bytes it has used.

  type NumberReader = (seq<byte>, nat) -> Parsed<nat>
  type TextReader = (seq<byte>, nat) -> Outcome
  type MessageReader = (seq<byte>, nat) -> Received<Message>

  /** Numbers are 32-bit varints. */
  function Number(): NumberReader {
    (all: seq<byte>, pos: nat) => Unvarint(32, 0, After(all, pos))
  }

  /** Texts come after their length; `full` says that there is no room after the data. */
  function TextOf(full: bool): TextReader {
    (all: seq<byte>, pos: nat) => StringAhead(After(all, pos), full)
  }

  function MessageOf(full: bool): MessageReader {
    (all: seq<byte>, pos: nat) => MessageAt(all, pos, Number(), TextOf(full))
  }

  ghost predicate IsNumber(next: NumberReader) {
    forall all, pos {:trigger Unvarint(32, 0, After(all, pos))} :: next(all, pos) == Unvarint(32, 0, After(all, pos))
  }

  ghost predicate IsText(text: TextReader, full: bool) {
    forall all, pos {:trigger StringAhead(After(all, pos), full)} :: text(all, pos) ==
      StringAhead(After(all, pos), full)
  }

  ghost predicate IsMessage(read: MessageReader, full: bool) {
    forall all, pos {:trigger MessageAt(all, pos, Number(), TextOf(full))} ::
      read(all, pos) == MessageAt(all, pos, Number(), TextOf(full))
  }

  /** `k` numbers one after the other. */
  function FieldsAt(k: nat, all: seq<byte>, pos: nat, next: NumberReader): (r: Parsed<seq<nat>>)
    ensures r.Parsed? ==> |r.value| == k
    decreases k
  {
    if k == 0 then Parsed([], 0)
    else
      match next(all, pos)
      case Short(u) => Short(u)
      case Parsed(v, u) =>
        match FieldsAt(k - 1, all, pos + u, next)
        case Short(w) => Short(u + w)
        case Parsed(vs, w) => Parsed([v] + vs, u + w)
  }

  function WithFields(t: byte, fs: seq<nat>, text: seq<byte>): Message
    requires |fs| == FieldCount(t)
  {
    if t == 1 then Request(fs[0], fs[1]) else if t == 2 then Response(fs[0], fs[1], fs[2], text) else Notify(fs[0])
  }

  /** What `parseFromByteArray` makes of the bytes after the type byte. */
  function BodyAt(t: byte, all: seq<byte>, pos: nat, next: NumberReader, text: TextReader): Received<Message> {
    match FieldsAt(FieldCount(t), all, pos, next)
    case Short(u) => Broken(OutOfRange, u)
    case Parsed(fs, u) =>
      if t != 2 then Got(WithFields(t, fs, []), u)
      else
        match text(all, pos + u)
        case Failed(status, w) => Broken(status, u + w)
        case Text(s, w) => Got(WithFields(t, fs, s), u + w)
  }

  /** The type byte says which parser reads on. */
  function MessageAt(all: seq<byte>, pos: nat, next: NumberReader, text: TextReader): Received<Message> {
    if pos >= |all| then Broken(OutOfRange, 0)
    else if all[pos] !in {1, 2, 3} then UnknownType(1)
    else
      var r := BodyAt(all[pos], all, pos + 1, next, text);
      r.(used := r.used + 1)
  }

  /** Reading `k` messages one after the other. */
  function AllAt(k: nat, all: seq<byte>, pos: nat, read: MessageReader): Received<seq<Message>>
    decreases k
  {
    if k == 0 then Got([], 0)
    else
      match read(all, pos)
      case Broken(status, u) => Broken(status, u)
      case UnknownType(u) => UnknownType(u)
      case Got(m, u) => Onward(m, u, AllAt(k - 1, all, pos + u, read))
  }

  /** A message that took `used` bytes, and what came after it. */
  function Onward(m: Message, used: nat, rest: Received<seq<Message>>): Received<seq<Message>> {
    match rest
    case Got(ms, w) => Got([m] + ms, used + w)
    case Broken(status, w) => Broken(status, used + w)
    case UnknownType(w) => UnknownType(used + w)
  }

  // ---------------------------------------------------------------- round trips

  /** The bytes stand at the position. */
  predicate Stands(all: seq<byte>, pos: nat, bytes: seq<byte>) {
    pos + |bytes| <= |all| && all[pos..pos + |bytes|] == bytes
  }

  lemma StandsSplit(all: seq<byte>, pos: nat, a: seq<byte>, b: seq<byte>)
    requires Stands(all, pos, a + b)
    ensures Stands(all, pos, a) && Stands(all, pos + |a|, b)
  {
    var whole := all[pos..pos + |a| + |b|];
    assert whole[..|a|] == a && whole[|a|..] == b;
  }

  lemma StandsAfter(all: seq<byte>, pos: nat, bytes: seq<byte>)
    requires Stands(all, pos, bytes)
    ensures After(all, pos) == bytes + After(all, pos + |bytes|)
  {
  }

  lemma {:induction false} NumberReads(all: seq<byte>, pos: nat, v: nat, next: NumberReader)
    requires Stands(all, pos, Varint(v)) && v < TWO_32 && IsNumber(next)
    ensures next(all, pos) == Parsed(v, |Varint(v)|)
  {
    StandsAfter(all, pos, Varint(v));
    Varint32(v, After(all, pos + |Varint(v)|));
  }

  lemma {:induction false} FieldsRoundTrip(fs: seq<nat>, all: seq<byte>, pos: nat, next: NumberReader)
    requires Stands(all, pos, Varints(fs)) && (forall i :: 0 <= i < |fs| ==> fs[i] < TWO_32) && IsNumber(next)
    ensures FieldsAt(|fs|, all, pos, next) == Parsed(fs, |Varints(fs)|)
  {
    if fs != [] {
      StandsSplit(all, pos, Varint(fs[0]), Varints(fs[1..]));
      NumberReads(all, pos, fs[0], next);
      FieldsRoundTrip(fs[1..], all, pos + |Varint(fs[0])|, next);
      assert [fs[0]] + fs[1..] == fs;
    }
  }

  lemma {:induction false} TextReads(s: seq<byte>, all: seq<byte>, pos: nat, full: bool, text: TextReader)
    requires Stands(all, pos, Varint(|s|) + s) && |s| < TWO_64 && IsText(text, full)
    ensures var n := |Varint(|s|) + s|;
      text(all, pos) == if s == [] && pos + n == |all| && full then Failed(NullBlock, n) else Text(s, n)
  {
    var head, n := Varint(|s|), |Varint(|s|) + s|;
    var rest := After(all, pos + n);
    StandsAfter(all, pos, head + s);
    Regroup(head, s, rest);
    Varint64(|s|, s + rest);
    TextInside(head, s, rest);
    assert text(all, pos) == StringAhead(After(all, pos), full);
  }

  lemma TextInside(head: seq<byte>, s: seq<byte>, rest: seq<byte>)
    ensures (head + (s + rest))[|head|..|head| + |s|] == s
  {
  }

  /** The one message that may not be followed by nothing: a response without a text. */
  predicate Bare(m: Message) {
    m.Response? && m.text == []
  }

  /** What a reader makes of a message of `size` bytes; `last` says that nothing follows. */
  function OneBack(m: Message, size: nat, last: bool, full: bool): Received<Message> {
    if Bare(m) && last && full then Broken(NullBlock, size) else Got(m, size)
  }

  lemma {:induction false} BodyRoundTrip(
      m: Message, all: seq<byte>, pos: nat, full: bool, next: NumberReader, text: TextReader)
    requires Stands(all, pos, Body(m)) && Sendable(m) && IsNumber(next) && IsText(text, full)
    ensures BodyAt(TypeByte(m), all, pos, next, text) ==
      OneBack(m, |Body(m)|, pos + |Body(m)| == |all|, full)
  {
    StandsSplit(all, pos, Varints(Fields(m)), Tail(m));
    FieldsRoundTrip(Fields(m), all, pos, next);
    if m.Response? {
      TextReads(m.text, all, pos + |Varints(Fields(m))|, full, text);
    }
  }

  /** A message is read back as itself and to its last byte, with one exception. */
  lemma {:induction false} MessageRoundTrip(
      m: Message, all: seq<byte>, pos: nat, full: bool, next: NumberReader, text: TextReader)
    requires Stands(all, pos, Encoded(m)) && Sendable(m) && IsNumber(next) && IsText(text, full)
    ensures MessageAt(all, pos, next, text) == OneBack(m, |Encoded(m)|, pos + |Encoded(m)| == |all|, full)
  {
    StandsSplit(all, pos, [TypeByte(m)], Body(m));
    assert all[pos..pos + 1][0] == all[pos];
    BodyRoundTrip(m, all, pos + 1, full, next, text);
  }

  /** Whoever writes these bytes sends this message: each number is read into the field of its
      name. Only the response without a text can fail, at the end of data that fills its blocks. */
  lemma {:induction false} WireIsRead(
      m: Message, all: seq<byte>, pos: nat, full: bool, next: NumberReader, text: TextReader, wire: seq<byte>)
    requires Stands(all, pos, wire) && Sendable(m) && IsNumber(next) && IsText(text, full)
    requires wire ==
      match m
      case Request(sn, cmd) => [1] + Varint(sn) + Varint(cmd)
      case Response(sn, cmd, result, s) => [2] + Varint(sn) + Varint(cmd) + Varint(result) + Varint(|s|) + s
      case Notify(notify) => [3] + Varint(notify)
    ensures MessageAt(all, pos, next, text) ==
      if m.Response? && m.text == [] && pos + |wire| == |all| && full then Broken(NullBlock, |wire|)
      else Got(m, |wire|)
  {
    WireForm(m);
    MessageRoundTrip(m, all, pos, full, next, text);
  }

  lemma {:induction false} EncodedIsNotEmpty(ms: seq<Message>)
    ensures EncodedAll(ms) == [] <==> ms == []
  {
    if ms != [] {
      assert |EncodedAll(ms)| >= |Encoded(ms[0])| >= 1;
    }
  }

  /** What a reader of `ms`, `size` bytes in all, ends up with: the messages, unless the last one
      is a response without a text and the data fills its blocks. */
  function ReadBack(ms: seq<Message>, size: nat, full: bool): Received<seq<Message>> {
    if ms != [] && Bare(ms[|ms| - 1]) && full then Broken(NullBlock, size) else Got(ms, size)
  }

  lemma ReadBackStep(ms: seq<Message>, used: nat, size: nat, full: bool)
    requires ms != [] && (|ms| == 1 ==> size == 0)
    ensures ReadBack(ms, used + size, full) ==
      if Bare(ms[0]) && |ms| == 1 && full then Broken(NullBlock, used)
      else Onward(ms[0], used, ReadBack(ms[1..], size, full))
  {
    assert [ms[0]] + ms[1..] == ms;
    assert |ms| > 1 ==> ms[1..][|ms| - 2] == ms[|ms| - 1];
  }

  /** How many bytes a message takes. */
  type Sizes = Message -> nat

  function SizeOf(): Sizes {
    m => |Encoded(m)|
  }

  ghost predicate IsSize(size: Sizes) {
    forall m {:trigger Encoded(m)} :: size(m) == |Encoded(m)|
  }

  function Total(ms: seq<Message>, size: Sizes): nat {
    if ms == [] then 0 else size(ms[0]) + Total(ms[1..], size)
  }

  /** Each of the messages is read where the one before it ended. */
  ghost predicate InTurn(ms: seq<Message>, size: Sizes, all: seq<byte>, pos: nat, full: bool, read: MessageReader) {
    ms == [] ||
    (&& read(all, pos) == OneBack(ms[0], size(ms[0]), |ms| == 1, full)
     && InTurn(ms[1..], size, all, pos + size(ms[0]), full, read))
  }

  lemma {:induction false} InTurnReadsBack(
      ms: seq<Message>, size: Sizes, all: seq<byte>, pos: nat, full: bool, read: MessageReader, k: nat)
    requires InTurn(ms, size, all, pos, full, read) && k == |ms|
    ensures AllAt(k, all, pos, read) == ReadBack(ms, Total(ms, size), full)
    decreases k
  {
    if ms != [] {
      InTurnReadsBack(ms[1..], size, all, pos + size(ms[0]), full, read, k - 1);
      ReadBackStep(ms, size(ms[0]), Total(ms[1..], size), full);
    }
  }

  /** A message that stands at the position is read there. */
  lemma {:induction false} MessageReads(
      m: Message, size: Sizes, all: seq<byte>, pos: nat, full: bool, read: MessageReader)
    requires Stands(all, pos, Encoded(m)) && Sendable(m) && IsMessage(read, full) && IsSize(size)
    ensures size(m) == |Encoded(m)| && read(all, pos) == OneBack(m, size(m), pos + size(m) == |all|, full)
  {
    MessageRoundTrip(m, all, pos, full, Number(), TextOf(full));
  }

  predicate AllSendable(ms: seq<Message>) {
    forall i :: 0 <= i < |ms| ==> Sendable(ms[i])
  }

  lemma {:induction false} SendableSplits(ms: seq<Message>)
    requires ms != [] && AllSendable(ms)
    ensures Sendable(ms[0]) && AllSendable(ms[1..])
  {
  }

  lemma {:induction false} FirstStands(
      ms: seq<Message>, size: Sizes, all: seq<byte>, pos: nat, full: bool, read: MessageReader)
    requires ms != [] && Sendable(ms[0]) && IsMessage(read, full) && IsSize(size)
    requires Stands(all, pos, EncodedAll(ms)) && pos + |EncodedAll(ms)| == |all|
    ensures read(all, pos) == OneBack(ms[0], size(ms[0]), |ms| == 1, full)
    ensures Stands(all, pos + size(ms[0]), EncodedAll(ms[1..]))
    ensures |EncodedAll(ms)| == size(ms[0]) + |EncodedAll(ms[1..])|
  {
    StandsSplit(all, pos, Encoded(ms[0]), EncodedAll(ms[1..]));
    EncodedIsNotEmpty(ms[1..]);
    MessageReads(ms[0], size, all, pos, full, read);
  }

  lemma {:induction false} StandInTurn(
      ms: seq<Message>, size: Sizes, all: seq<byte>, pos: nat, full: bool, read: MessageReader)
    requires AllSendable(ms) && IsMessage(read, full) && IsSize(size)
    requires Stands(all, pos, EncodedAll(ms)) && pos + |EncodedAll(ms)| == |all|
    ensures InTurn(ms, size, all, pos, full, read) && Total(ms, size) == |EncodedAll(ms)|
    decreases |ms|
  {
    if ms != [] {
      SendableSplits(ms);
      FirstStands(ms, size, all, pos, full, read);
      StandInTurn(ms[1..], size, all, pos + size(ms[0]), full, read);
    }
  }

  /** Messages that stand at the end of the data back to back are read back as the same messages,
      to the last byte, with that one exception. */
  lemma {:induction false} AllRoundTrip(ms: seq<Message>, all: seq<byte>, pos: nat, full: bool, read: MessageReader)
    requires AllSendable(ms) && IsMessage(read, full)
    requires Stands(all, pos, EncodedAll(ms)) && pos + |EncodedAll(ms)| == |all|
    ensures AllAt(|ms|, all, pos, read) == ReadBack(ms, |EncodedAll(ms)|, full)
  {
    StandInTurn(ms, SizeOf(), all, pos, full, read);
    InTurnReadsBack(ms, SizeOf(), all, pos, full, read, |ms|);
  }

  // ---------------------------------------------------------------- on a byte array

  method WriteFields(ba: ByteArray, fs: seq<nat>)
    requires ba.Valid()
    modifies ba, ba.nodes, ba.Buffers()
    ensures ba.Wrote(Varints(fs))
    decreases |fs|
  {
    if fs == [] {
      ba.Write([]);
    } else {
      ghost var was, start := ba.Visible(), ba.position;
      WriteVarint(ba, fs[0]);
      WrittenThen(was, start, Varint(fs[0]), ba.Visible(), ba.position, Varints(fs[1..]), Varints(fs));
      WriteFields(ba, fs[1..]);
    }
  }

  /** `serializeToByteArray` of the three kinds of message. */
  method Serialize(ba: ByteArray, m: Message)
    requires ba.Valid()
    modifies ba, ba.nodes, ba.Buffers()
    ensures ba.Wrote(Encoded(m))
    ensures Encoded(m) ==
      match m
      case Request(sn, cmd) => [1] + Varint(sn) + Varint(cmd)
      case Response(sn, cmd, result, text) =>
        [2] + Varint(sn) + Varint(cmd) + Varint(result) + Varint(|text|) + text
      case Notify(notify) => [3] + Varint(notify)
  {
    WireForm(m);
    ghost var was, start := ba.Visible(), ba.position;
    ba.Write([TypeByte(m)]);
    WrittenThen(was, start, [TypeByte(m)], ba.Visible(), ba.position, Body(m), Encoded(m));
    SerializeBody(ba, m);
  }

  method SerializeBody(ba: ByteArray, m: Message)
    requires ba.Valid()
    modifies ba, ba.nodes, ba.Buffers()
    ensures ba.Wrote(Body(m))
  {
    ghost var was, start := ba.Visible(), ba.position;
    WriteFields(ba, Fields(m));
    if m.Response? {
      WrittenThen(was, start, Varints(Fields(m)), ba.Visible(), ba.position, Tail(m), Body(m));
      WriteStringVint(ba, m.text);
    } else {
      assert Body(m) == Varints(Fields(m));
    }
  }

  /** The array holds `all`, with the given room after it; reading changes neither. */
  ghost predicate Holds(ba: ByteArray, all: seq<byte>, full: bool)
    reads ba, ba.nodes, ba.Buffers()
  {
    ba.Valid() && ba.Visible() == all && full == (ba.size == ba.capacity)
  }

  method ReadNumber(ba: ByteArray, ghost all: seq<byte>, ghost full: bool, ghost next: NumberReader)
    returns (status: Status, v: nat)
    requires Holds(ba, all, full) && IsNumber(next)
    modifies ba`position, ba`cur, ba`index
    ensures Holds(ba, all, full)
    ensures var r := next(all, old(ba.position));
      && ba.position == old(ba.position) + r.used
      && status == (if r.Parsed? then Done else OutOfRange) && (r.Parsed? ==> v == r.value)
  {
    assert Ahead(ba) == After(all, ba.position);
    status, v := ReadVarint(ba, 32);
  }

  method ReadFields(ba: ByteArray, k: nat, ghost all: seq<byte>, ghost full: bool, ghost next: NumberReader)
    returns (status: Status, fs: seq<nat>)
    requires Holds(ba, all, full) && IsNumber(next)
    modifies ba`position, ba`cur, ba`index
    ensures Holds(ba, all, full)
    ensures var r := FieldsAt(k, all, old(ba.position), next);
      && ba.position == old(ba.position) + r.used
      && status == (if r.Parsed? then Done else OutOfRange) && (r.Parsed? ==> fs == r.value)
    decreases k
  {
    if k == 0 {
      return Done, [];
    }
    var v;
    status, v := ReadNumber(ba, all, full, next);
    if status != Done {
      return status, [];
    }
    status, fs := ReadFields(ba, k - 1, all, full, next);
    fs := [v] + fs;
  }

  method ReadTail(ba: ByteArray, ghost all: seq<byte>, ghost full: bool, ghost text: TextReader)
    returns (status: Status, s: seq<byte>)
    requires Holds(ba, all, full) && IsText(text, full)
    modifies ba`position, ba`cur, ba`index
    ensures Holds(ba, all, full)
    ensures var r := text(all, old(ba.position));
      && ba.position == old(ba.position) + r.used
      && status == (if r.Text? then Done else r.status) && (status == Done ==> r.Text? && s == r.text)
  {
    assert Ahead(ba) == After(all, ba.position);
    assert text(all, ba.position) == StringAhead(Ahead(ba), full);
    status, s := ReadStringVint(ba);
  }

  /** What a body comes to, by what its fields and its text come to. */
  lemma {:induction false} BodyStep(t: byte, all: seq<byte>, pos: nat, next: NumberReader, text: TextReader,
                                    fields: Parsed<seq<nat>>, tail: Outcome)
    requires fields == FieldsAt(FieldCount(t), all, pos, next) && tail == text(all, pos + fields.used)
    ensures BodyAt(t, all, pos, next, text) ==
      if fields.Short? then Broken(OutOfRange, fields.used)
      else if t != 2 then Got(WithFields(t, fields.value, []), fields.used)
      else if tail.Failed? then Broken(tail.status, fields.used + tail.used)
      else Got(WithFields(t, fields.value, tail.text), fields.used + tail.used)
  {
  }

  /** `parseFromByteArray` of the message type `t`. */
  method ParseBody(ba: ByteArray, t: byte, ghost all: seq<byte>, ghost full: bool,
                   ghost next: NumberReader, ghost text: TextReader)
    returns (r: Received<Message>)
    requires Holds(ba, all, full) && IsNumber(next) && IsText(text, full)
    modifies ba`position, ba`cur, ba`index
    ensures Holds(ba, all, full) && ba.position == old(ba.position) + r.used
    ensures r == BodyAt(t, all, old(ba.position), next, text)
  {
    var start := ba.position;
    ghost var fields := FieldsAt(FieldCount(t), all, start, next);
    ghost var tail := text(all, start + fields.used);
    BodyStep(t, all, start, next, text, fields, tail);
    var status, fs := ReadFields(ba, FieldCount(t), all, full, next);
    if status != Done {
      return Broken(status, ba.position - start);
    }
    if t != 2 {
      return Got(WithFields(t, fs, []), ba.position - start);
    }
    var s;
    status, s := ReadTail(ba, all, full, text);
    if status != Done {
      return Broken(status, ba.position - start);
    }
    return Got(WithFields(t, fs, s), ba.position - start);
  }

  /** Reads a type byte and lets the parser for it read on. */
  method ReadMessage(
      ba: ByteArray, ghost all: seq<byte>, ghost full: bool, ghost next: NumberReader, ghost text: TextReader)
    returns (r: Received<Message>)
    requires Holds(ba, all, full) && IsNumber(next) && IsText(text, full)
    modifies ba`position, ba`cur, ba`index
    ensures Holds(ba, all, full) && ba.position == old(ba.position) + r.used
    ensures r == MessageAt(all, old(ba.position), next, text)
    ensures old(ba.position) < |all| && all[old(ba.position)] !in {1, 2, 3} ==> r == UnknownType(1)
  {
    var status, t := ReadByte(ba);
    if status != Done {
      return Broken(status, 0);
    }
    if t != 1 && t != 2 && t != 3 {
      return UnknownType(1);
    }
    r := ParseBody(ba, t, all, full, next, text);
    r := r.(used := r.used + 1);
  }

  method SerializeAll(ba: ByteArray, ms: seq<Message>)
    requires ba.Valid()
    modifies ba, ba.nodes, ba.Buffers()
    ensures ba.Wrote(EncodedAll(ms))
    decreases |ms|
  {
    if ms == [] {
      ba.Write([]);
    } else {
      ghost var was, start := ba.Visible(), ba.position;
      Serialize(ba, ms[0]);
      WrittenThen(was, start, Encoded(ms[0]), ba.Visible(), ba.position, EncodedAll(ms[1..]), EncodedAll(ms));
      SerializeAll(ba, ms[1..]);
    }
  }

  method NextMessage(ba: ByteArray, ghost all: seq<byte>, ghost full: bool, ghost read: MessageReader)
    returns (r: Received<Message>)
    requires Holds(ba, all, full) && IsMessage(read, full)
    modifies ba`position, ba`cur, ba`index
    ensures Holds(ba, all, full) && ba.position == old(ba.position) + r.used
    ensures r == read(all, old(ba.position))
  {
    r := ReadMessage(ba, all, full, Number(), TextOf(full));
  }

  /** Reads `k` messages one after the other, until one fails. */
  method ReadMessages(ba: ByteArray, k: nat, ghost all: seq<byte>, ghost full: bool, ghost read: MessageReader)
    returns (r: Received<seq<Message>>)
    requires Holds(ba, all, full) && IsMessage(read, full)
    modifies ba`position, ba`cur, ba`index
    ensures Holds(ba, all, full) && ba.position == old(ba.position) + r.used
    ensures r == AllAt(k, all, old(ba.position), read)
    decreases k
  {
    if k == 0 {
      return Got([], 0);
    }
    var first := NextMessage(ba, all, full, read);
    if first.Broken? {
      return Broken(first.status, first.used);
    }
    if first.UnknownType? {
      return UnknownType(first.used);
    }
    r := ReadMessages(ba, k - 1, all, full, read);
    r := Onward(first.value, first.used, r);
  }

  /** Blocks are added only as needed, so the data fills them if it is a whole number of blocks. */
  lemma {:induction false} FullExactly(total: nat, capacity: nat, base: nat, k: nat)
    requires 0 < total <= capacity == Start(k, base) && base > 0
    requires capacity == base || capacity < total + base
    ensures total == capacity <==> total % base == 0
  {
    StartIsProduct(k, base);
    if total == capacity {
      UniqueRemainder(total, base, k, 0);
    } else {
      StartIsProduct(k - 1, base);
      assert base * k == base * (k - 1) + base;
      UniqueRemainder(total, base, k - 1, total - base * (k - 1));
    }
  }

  /** Writing messages to a new byte array and reading them from its start gives back the
      same messages, unless the last one is a response without a text and the bytes make up
      whole blocks: then the read of its empty text goes through a null block. */
  method Exchange(base: nat, ms: seq<Message>) returns (r: Received<seq<Message>>)
    requires base > 0 && AllSendable(ms)
    ensures var n := |EncodedAll(ms)|;
      r == if ms != [] && Bare(ms[|ms| - 1]) && n % base == 0 then Broken(NullBlock, n) else Got(ms, n)
  {
    var ba := SerializeNew(base, ms);
    EncodedIsNotEmpty(ms);
    if ms != [] {
      FullExactly(ba.size, ba.capacity, base, |ba.nodes|);
    }
    ghost var all, full := EncodedAll(ms), ba.size == ba.capacity;
    AllRoundTrip(ms, all, 0, full, MessageOf(full));
    r := ReadMessages(ba, |ms|, all, full, MessageOf(full));
  }

  /** With blocks of one byte the data always fills them: a single response without a text is lost. */
  method ExchangeCanFail() returns (r: Received<seq<Message>>)
    ensures r.Broken? && r.status == NullBlock
  {
    var m := Response(0, 0, 0, []);
    assert Fields(m) == [0, 0, 0];
    r := Exchange(1, [m]);
  }

  lemma {:induction false} WrittenFirst(data: seq<byte>)
    ensures Written([], 0, data) == data
  {
    WrittenAtOnce([], 0, data);
  }

  /** A new byte array that holds the messages, with the position at their start. */
  method SerializeNew(base: nat, ms: seq<Message>) returns (ba: ByteArray)
    requires base > 0
    ensures fresh(ba) && ba.Valid() && ba.baseSize == base && ba.Visible() == EncodedAll(ms)
    ensures ba.position == 0 && ba.size == |EncodedAll(ms)|
    ensures ba.capacity == base || ba.capacity < ba.size + base
  {
    ghost var all := EncodedAll(ms);
    ba := new ByteArray(base);
    SerializeAll(ba, ms);
    WrittenFirst(all);
    Rewind(ba, all);
  }

  /** Goes back to the start of `all`. */
  method Rewind(ba: ByteArray, ghost all: seq<byte>)
    requires ba.Valid() && ba.Visible() == all
    modifies ba`position, ba`size, ba`cur, ba`index
    ensures ba.Valid() && ba.position == 0 && ba.size == old(ba.size) && ba.Visible() == all
  {
    var status := ba.SetPosition(0);
  }
}

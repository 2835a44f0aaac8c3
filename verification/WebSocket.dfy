/** Frames of section 5.2 of RFC 6455, and the messages that they make up
    (Sylar/HttpServer/ws_session.cc). */
module WebSocket {
  import opened Prelude
  import opened Bits
  import opened Integers

  const CONTINUE: nat := 0
  const TEXT_FRAME: nat := 1
  const BIN_FRAME: nat := 2
  const PING: nat := 9
  const PONG: nat := 10

  type Mask = m: seq<byte> | |m| == 4 witness [0, 0, 0, 0]

  lemma Pow2Eight()
    ensures Pow2(8) == 256
  {
  }

  function XorByte(a: byte, b: byte): byte {
    Pow2Eight();
    XorBound(8, a, b);
    Xor(a, b)
  }

  /** A byte of the mask flips the bits that are set in it, and no others. */
  lemma {:induction false} MaskFlipsBits(a: byte, b: byte, i: nat)
    requires i < 8
    ensures Bit(XorByte(a, b), i) <==> (if Bit(b, i) then !Bit(a, i) else Bit(a, i))
  {
    BitXor(a, b, i);
  }

  lemma XorByteTwice(a: byte, b: byte)
    ensures XorByte(XorByte(a, b), b) == a
  {
    Pow2Eight();
    XorTwice(8, a, b);
  }

  function Masked(data: seq<byte>, mask: Mask): (r: seq<byte>)
    ensures |r| == |data|
    ensures forall i :: 0 <= i < |data| ==> r[i] == XorByte(data[i], mask[i % 4])
  {
    seq(|data|, i requires 0 <= i < |data| => XorByte(data[i], mask[i % 4]))
  }

  lemma MaskedTwice(data: seq<byte>, mask: Mask)
    ensures Masked(Masked(data, mask), mask) == data
  {
    forall i | 0 <= i < |data|
      ensures Masked(Masked(data, mask), mask)[i] == data[i]
    {
      XorByteTwice(data[i], mask[i % 4]);
    }
  }

  // ---------------------------------------------------------------- frames

  datatype Key = Clear | With(mask: Mask)

  datatype Frame =
    | Data(fin: bool, opcode: nat, key: Key, payload: seq<byte>)
    | Ping
    | Pong

  /** Frames whose opcode and length can be written. */
  predicate Writable(f: Frame) {
    f.Data? ==> f.opcode < 16 && |f.payload| < TWO_64
  }

  /** Those of them that carry the data of a message. */
  predicate Sendable(f: Frame) {
    Writable(f) && (f.Data? ==> f.opcode in {CONTINUE, TEXT_FRAME, BIN_FRAME})
  }

  /** The shortest form of a length. */
  function LengthCode(n: nat): nat {
    if n < 126 then n else if n < 65536 then 126 else 127
  }

  /** How many bytes of length follow the head. */
  function Extra(code: nat): nat {
    if code == 126 then 2 else if code == 127 then 8 else 0
  }

  function FirstByte(fin: bool, opcode: nat): byte
    requires opcode < 16
  {
    opcode + if fin then 128 else 0
  }

  function SecondByte(code: nat, masked: bool): byte
    requires code < 128
  {
    code + if masked then 128 else 0
  }

  /** The bytes of a frame, as `WSSendMessage`, `WSPing` and `WSPong` write them. */
  function Encoded(f: Frame): seq<byte>
    requires Writable(f)
  {
    match f
    case Ping => [FirstByte(true, PING), 0]
    case Pong => [FirstByte(true, PONG), 0]
    case Data(fin, opcode, key, payload) =>
      [FirstByte(fin, opcode), SecondByte(LengthCode(|payload|), key.With?)] + EncodedBody(key, payload)
  }

  function EncodedBody(key: Key, payload: seq<byte>): seq<byte> {
    Memory(Big, Extra(LengthCode(|payload|)), |payload|) + Keyed(key, payload)
  }

  function Keyed(key: Key, payload: seq<byte>): seq<byte> {
    if key.With? then key.mask + Masked(payload, key.mask) else payload
  }

  /** The layout of section 5.2 of RFC 6455: the head, the length in the first form that has
      room for it, highest byte first, and the payload, after its mask if it has one. */
  lemma {:induction false} FrameForm(f: Frame, lead: seq<byte>)
    requires Writable(f) && f.Data?
    requires var n, a, b := |f.payload|, f.opcode + (if f.fin then 128 else 0), if f.key.With? then 128 else 0;
      lead ==
        if n <= 125 then [a, b + n]
        else if n <= 0xFFFF then [a, b + 126, n / 256, n % 256]
        else [a, b + 127] + Memory(Big, 8, n)
    ensures Encoded(f) == lead + if f.key.With? then f.key.mask + Masked(f.payload, f.key.mask) else f.payload
  {
    var n := |f.payload|;
    var head, len := [FirstByte(f.fin, f.opcode), SecondByte(LengthCode(n), f.key.With?)],
      Memory(Big, Extra(LengthCode(n)), n);
    if 126 <= n <= 0xFFFF {
      TwoBytes(n);
    }
    assert head + len == lead;
    LeadThenPayload(f, head, len, lead);
  }

  lemma {:induction false} LeadThenPayload(f: Frame, head: seq<byte>, len: seq<byte>, lead: seq<byte>)
    requires Writable(f) && f.Data? && head + len == lead
    requires head == [FirstByte(f.fin, f.opcode), SecondByte(LengthCode(|f.payload|), f.key.With?)]
    requires len == Memory(Big, Extra(LengthCode(|f.payload|)), |f.payload|)
    ensures Encoded(f) == lead + Keyed(f.key, f.payload)
  {
    Regroup(head, len, Keyed(f.key, f.payload));
  }

  lemma ControlForm()
    ensures Encoded(Ping) == [0x89, 0] && Encoded(Pong) == [0x8A, 0]
  {
  }

  lemma {:induction false} TwoBytes(n: nat)
    requires n < 65536
    ensures Memory(Big, 2, n) == [n / 256, n % 256]
  {
    MemoryForm(2, n, 0);
    MemoryForm(2, n, 1);
    assert Power256(1) == 256;
  }

  function EncodedAll(fs: seq<Frame>): seq<byte>
    requires forall i :: 0 <= i < |fs| ==> Sendable(fs[i])
  {
    if fs == [] then [] else assert Sendable(fs[0]); Encoded(fs[0]) + EncodedAll(fs[1..])
  }

  // ---------------------------------------------------------------- receiving

  /** What a call comes to: a message, a closed stream, or something that the source leaves
      undefined because it has lost count of the bytes it has. */
  datatype Outcome =
    | Message(opcode: nat, data: seq<byte>, rest: seq<byte>, pongs: nat)
    | Closed(pongs: nat)
    | Undefined(pongs: nat)

  function WithPong(r: Outcome): Outcome {
    r.(pongs := r.pongs + 1)
  }

  /** What becomes of a fragment of `n` bytes. The receiver counts the `have` bytes that it has
      in an `int`, adds in 64 bits, and takes the result of the read, another `int`, for a
      failure unless it is positive. */
  datatype Verdict = Refused | Lost | Taken

  function Judged(have: nat, n: nat, limit: nat): Verdict {
    if (Int32(have) + n) % TWO_64 >= limit then Refused
    else if Int32(have) < 0 then Lost
    else if Int32(n) <= 0 then Refused
    else Taken
  }

  /** So it takes what is neither empty nor too long, as long as it has not lost count. */
  predicate Takes(have: nat, n: nat, limit: nat) {
    have < TWO_31 && 0 < n < TWO_31 && have + n < limit
  }

  lemma {:induction false} JudgedIs(have: nat, n: nat, limit: nat)
    requires have < TWO_32 && n < TWO_64 && limit < TWO_32
    ensures Judged(have, n, limit) == Taken <==> Takes(have, n, limit)
    ensures Judged(have, n, limit) == Lost ==> have >= TWO_31
  {
    if have < TWO_31 && have + n >= TWO_64 {
      assert Int32(n) == n - TWO_64;
    }
  }

  /** The payload of a frame whose head has been read, and what follows it. */
  datatype Body = Body(payload: seq<byte>, rest: seq<byte>) | Bad | Wild

  /** `have` bytes of the message are there already. */
  function ReadBody(code: nat, masked: bool, input: seq<byte>, have: nat, limit: nat): (r: Body)
    ensures r.Body? ==> |r.rest| <= |input|
  {
    var extra := Extra(code);
    if |input| < extra then Bad
    else
      var length := if extra == 0 then code else FromMemory(Big, input[..extra]);
      ReadPayload(length, Judged(have, length, limit), masked, input[extra..])
  }

  /** The rest of a frame when its length has been read and judged. */
  function ReadPayload(length: nat, verdict: Verdict, masked: bool, input: seq<byte>): (r: Body)
    ensures r.Body? ==> |r.rest| <= |input|
  {
    if verdict == Refused || (masked && |input| < 4) then Bad
    else if verdict == Lost then Wild
    else if masked then Payload(input[4..], length, With(input[..4]))
    else Payload(input, length, Clear)
  }

  function Payload(input: seq<byte>, length: nat, key: Key): (r: Body)
    ensures r.Body? ==> |r.rest| <= |input|
  {
    if |input| < length then Bad
    else Body(if key.With? then Masked(input[..length], key.mask) else input[..length], input[length..])
  }

  /** `WSRecvMessage`, from a state in which `data` has been put together. */
  function Received(input: seq<byte>, opcode: nat, data: seq<byte>, client: bool, limit: nat): Outcome
    decreases |input|, 1
  {
    if |input| < 2 then Closed(0) else AfterHead(input[0], input[1], input[2..], opcode, data, client, limit)
  }

  /** The rest of the call when the two bytes of a head have been read. */
  function AfterHead(
      a: byte, b: byte, input: seq<byte>, opcode: nat, data: seq<byte>, client: bool, limit: nat): Outcome
    decreases |input|, 2
  {
    var op, fin, code, masked := a % 16, a >= 128, b % 128, b >= 128;
    if op == PING then WithPong(Received(input, opcode, data, client, limit))
    else if op !in {CONTINUE, TEXT_FRAME, BIN_FRAME} then Received(input, opcode, data, client, limit)
    else if !client && !masked then Closed(0)
    else
      match ReadBody(code, masked, input, |data|, limit)
      case Bad => Closed(0)
      case Wild => Undefined(0)
      case Body(payload, rest) =>
        if fin then Message(FirstOpcode(opcode, op), data + payload, rest, 0)
        else Received(rest, FirstOpcode(opcode, op), data + payload, client, limit)
  }

  // ---------------------------------------------------------------- one frame

  lemma LengthRoundTrip(n: nat)
    requires n < TWO_64
    ensures LengthCode(n) < 128
    ensures var bytes := Memory(Big, Extra(LengthCode(n)), n);
      n == if |bytes| == 0 then LengthCode(n) else FromMemory(Big, bytes)
  {
    var k := Extra(LengthCode(n));
    if k > 0 {
      assert Power256(2) == 65536;
      assert Power256(4) == 0x1_0000_0000;
      assert Power256(8) == TWO_64;
      FixedRoundTrip(Big, Big, Big, k, n);
    }
  }

  /** A length code below 128 stands for `n`, itself or with the bytes that follow it. */
  predicate CanSay(code: nat, n: nat) {
    if Extra(code) == 0 then code == n else n < Power256(Extra(code))
  }

  /** The form that is written is the shortest that can say the length. */
  lemma LengthIsShortest(n: nat, code: nat)
    requires n < TWO_64 && code < 128 && CanSay(code, n)
    ensures CanSay(LengthCode(n), n) && Extra(LengthCode(n)) <= Extra(code)
    ensures LengthCode(n) in {126, 127} <==> n >= 126
  {
    assert Power256(2) == 65536;
    assert Power256(4) == 0x1_0000_0000;
    assert Power256(8) == TWO_64;
  }

  lemma BodyRoundTrip(key: Key, payload: seq<byte>, rest: seq<byte>)
    ensures key.Clear? ==> Payload(payload + rest, |payload|, Clear) == Body(payload, rest)
    ensures key.With? ==> Payload(Masked(payload, key.mask) + rest, |payload|, key) == Body(payload, rest)
  {
    if key.With? {
      var m := Masked(payload, key.mask);
      MaskedTwice(payload, key.mask);
      assert (m + rest)[..|payload|] == m && (m + rest)[|payload|..] == rest;
    } else {
      assert (payload + rest)[..|payload|] == payload && (payload + rest)[|payload|..] == rest;
    }
  }

  /** The body that a verdict on the payload leaves. */
  function JudgedBody(verdict: Verdict, payload: seq<byte>, rest: seq<byte>): Body {
    match verdict
    case Refused => Bad
    case Lost => Wild
    case Taken => Body(payload, rest)
  }

  lemma KeyedRoundTrip(key: Key, payload: seq<byte>, rest: seq<byte>, verdict: Verdict)
    ensures ReadPayload(|payload|, verdict, key.With?, Keyed(key, payload) + rest) ==
      JudgedBody(verdict, payload, rest)
  {
    BodyRoundTrip(key, payload, rest);
    if key.With? {
      var m := Masked(payload, key.mask);
      assert (key.mask + m) + rest == key.mask + (m + rest);
      assert (key.mask + (m + rest))[..4] == key.mask && (key.mask + (m + rest))[4..] == m + rest;
    }
  }

  lemma {:induction false} ReadBodyRoundTrip(key: Key, payload: seq<byte>, rest: seq<byte>, have: nat, limit: nat)
    requires |payload| < TWO_64
    ensures ReadBody(LengthCode(|payload|), key.With?, EncodedBody(key, payload) + rest, have, limit) ==
      JudgedBody(Judged(have, |payload|, limit), payload, rest)
  {
    var n := |payload|;
    var len, keyed := Memory(Big, Extra(LengthCode(n)), n), Keyed(key, payload);
    LengthRoundTrip(n);
    Regroup(len, keyed, rest);
    assert (len + (keyed + rest))[..|len|] == len && (len + (keyed + rest))[|len|..] == keyed + rest;
    KeyedRoundTrip(key, payload, rest, Judged(have, n, limit));
  }

  lemma HeadFields(fin: bool, opcode: nat, code: nat, masked: bool)
    requires opcode < 16 && code < 128
    ensures FirstByte(fin, opcode) % 16 == opcode && (FirstByte(fin, opcode) >= 128 <==> fin)
    ensures SecondByte(code, masked) % 128 == code && (SecondByte(code, masked) >= 128 <==> masked)
  {
  }

  lemma HeadThenBody(a: byte, b: byte, body: seq<byte>, rest: seq<byte>)
    ensures var input := ([a, b] + body) + rest;
      |input| >= 2 && input[0] == a && input[1] == b && input[2..] == body + rest
  {
  }

  /** A receiver that is given frames rather than bytes. */
  function ReceivedFrames(
      fs: seq<Frame>, rest: seq<byte>, opcode: nat, data: seq<byte>, client: bool, limit: nat): Outcome
    requires forall i :: 0 <= i < |fs| ==> Sendable(fs[i])
    decreases |fs|
  {
    if fs == [] then Received(rest, opcode, data, client, limit)
    else
      var f := fs[0];
      if f.Ping? then WithPong(ReceivedFrames(fs[1..], rest, opcode, data, client, limit))
      else if f.Pong? then ReceivedFrames(fs[1..], rest, opcode, data, client, limit)
      else if !client && f.key.Clear? then Closed(0)
      else
        match Judged(|data|, |f.payload|, limit)
        case Refused => Closed(0)
        case Lost => Undefined(0)
        case Taken =>
          if f.fin then Message(FirstOpcode(opcode, f.opcode), data + f.payload, EncodedAll(fs[1..]) + rest, 0)
          else ReceivedFrames(fs[1..], rest, FirstOpcode(opcode, f.opcode), data + f.payload, client, limit)
  }

  /** The first frame that is not a continuation gives the message its opcode. */
  function FirstOpcode(opcode: nat, op: nat): nat {
    if opcode == 0 && op != CONTINUE then op else opcode
  }

  /** Two bytes with an opcode that the receiver does not know, or a pong, are passed over. */
  lemma OthersArePassedOver(
      a: byte, b: byte, rest: seq<byte>, opcode: nat, data: seq<byte>, client: bool, limit: nat)
    requires a % 16 !in {0, 1, 2, 9}
    ensures Received([a, b] + rest, opcode, data, client, limit) == Received(rest, opcode, data, client, limit)
  {
    var input := [a, b] + rest;
    assert input[0] == a && input[1] == b && input[2..] == rest;
  }

  /** What a frame of a sender does to a receiver. */
  lemma {:induction false} FrameStep(f: Frame, rest: seq<byte>, opcode: nat, data: seq<byte>, client: bool, limit: nat)
    requires Sendable(f)
    ensures Received(Encoded(f) + rest, opcode, data, client, limit) ==
      if f.Ping? then WithPong(Received(rest, opcode, data, client, limit))
      else if f.Pong? then Received(rest, opcode, data, client, limit)
      else if !client && f.key.Clear? then Closed(0)
      else
        match Judged(|data|, |f.payload|, limit)
        case Refused => Closed(0)
        case Lost => Undefined(0)
        case Taken =>
          if f.fin then Message(FirstOpcode(opcode, f.opcode), data + f.payload, rest, 0)
          else Received(rest, FirstOpcode(opcode, f.opcode), data + f.payload, client, limit)
  {
    match f
    case Ping =>
      HeadFields(true, PING, 0, false);
      HeadThenBody(FirstByte(true, PING), 0, [], rest);
      assert [FirstByte(true, PING), 0] + [] == Encoded(f) && [] + rest == rest;
    case Pong =>
      HeadFields(true, PONG, 0, false);
      HeadThenBody(FirstByte(true, PONG), 0, [], rest);
      assert [FirstByte(true, PONG), 0] + [] == Encoded(f) && [] + rest == rest;
    case Data(fin, op, key, payload) =>
      var code := LengthCode(|payload|);
      LengthRoundTrip(|payload|);
      HeadFields(fin, op, code, key.With?);
      HeadThenBody(FirstByte(fin, op), SecondByte(code, key.With?), EncodedBody(key, payload), rest);
      ReadBodyRoundTrip(key, payload, rest, |data|, limit);
  }

  // ---------------------------------------------------------------- messages

  /** The bytes of the data frames. */
  function Payloads(fs: seq<Frame>): seq<byte> {
    if fs == [] then [] else if fs[0].Data? then fs[0].payload + Payloads(fs[1..]) else Payloads(fs[1..])
  }

  function Pings(fs: seq<Frame>): nat {
    if fs == [] then 0 else (if fs[0].Ping? then 1 else 0) + Pings(fs[1..])
  }

  predicate AllMasked(fs: seq<Frame>) {
    forall i :: 0 <= i < |fs| && fs[i].Data? ==> fs[i].key.With?
  }

  /** A message in fragments, section 5.4: the first one names the opcode, the others
      continue, and the last frame is the one that says so; pings and pongs may come between. */
  predicate Fragments(fs: seq<Frame>, op: nat, started: bool) {
    fs != [] &&
    if fs[0].Data? then
      && fs[0].opcode == (if started then CONTINUE else op)
      && (fs[0].fin <==> |fs| == 1)
      && (|fs| > 1 ==> Fragments(fs[1..], op, true))
    else Fragments(fs[1..], op, started)
  }

  /** The receiver takes the payload of every data frame, one after the other. */
  predicate Takeable(fs: seq<Frame>, have: nat, limit: nat) {
    fs == [] ||
    if fs[0].Data? then Takes(have, |fs[0].payload|, limit) && Takeable(fs[1..], have + |fs[0].payload|, limit)
    else Takeable(fs[1..], have, limit)
  }

  predicate NoneEmpty(fs: seq<Frame>) {
    forall i :: 0 <= i < |fs| && fs[i].Data? ==> fs[i].payload != []
  }

  /** With a limit that an `int` can hold, that is all about the total and empty fragments. */
  lemma {:induction false} TakeableBelowLimit(fs: seq<Frame>, have: nat, limit: nat)
    requires limit <= TWO_31 && (exists i :: 0 <= i < |fs| && fs[i].Data?)
    ensures Takeable(fs, have, limit) <==> have + |Payloads(fs)| < limit && NoneEmpty(fs)
  {
    var f := fs[0];
    assert fs == [f] + fs[1..];
    assert NoneEmpty(fs) <==> (f.Data? ==> f.payload != []) && NoneEmpty(fs[1..]);
    var have' := if f.Data? then have + |f.payload| else have;
    if exists i :: 0 <= i < |fs[1..]| && fs[1..][i].Data? {
      TakeableBelowLimit(fs[1..], have', limit);
    } else {
      NoDataLeft(fs[1..], have', limit);
    }
  }

  lemma {:induction false} NoDataLeft(fs: seq<Frame>, have: nat, limit: nat)
    requires forall i :: 0 <= i < |fs| ==> !fs[i].Data?
    ensures Takeable(fs, have, limit) && Payloads(fs) == [] && NoneEmpty(fs)
  {
    if fs != [] {
      NoDataLeft(fs[1..], have, limit);
    }
  }

  /** The bytes of frames are received as the frames would be. */
  lemma {:induction false} BytesAreFrames(
      fs: seq<Frame>, rest: seq<byte>, opcode: nat, data: seq<byte>, client: bool, limit: nat)
    requires forall i :: 0 <= i < |fs| ==> Sendable(fs[i])
    ensures Received(EncodedAll(fs) + rest, opcode, data, client, limit) ==
      ReceivedFrames(fs, rest, opcode, data, client, limit)
    decreases |fs|
  {
    if fs == [] {
      assert EncodedAll(fs) + rest == rest;
    } else {
      var f, more := fs[0], EncodedAll(fs[1..]) + rest;
      Regroup(Encoded(f), EncodedAll(fs[1..]), rest);
      FrameStep(f, more, opcode, data, client, limit);
      if f.Data? {
        BytesAreFrames(fs[1..], rest, FirstOpcode(opcode, f.opcode), data + f.payload, client, limit);
      } else {
        BytesAreFrames(fs[1..], rest, opcode, data, client, limit);
      }
    }
  }

  lemma {:induction false} LastFrame(f: Frame, opcode: nat, rest: seq<byte>, data: seq<byte>, client: bool, limit: nat)
    requires f.Data? && f.fin && Sendable(f) && |data| < TWO_32 && limit < TWO_32
    ensures Payloads([f]) == f.payload && Pings([f]) == 0
    ensures Takeable([f], |data|, limit) <==> Takes(|data|, |f.payload|, limit)
    ensures var r := ReceivedFrames([f], rest, opcode, data, client, limit);
      if (client || f.key.With?) && Takes(|data|, |f.payload|, limit)
      then r == Message(FirstOpcode(opcode, f.opcode), data + f.payload, rest, 0)
      else !r.Message?
  {
    JudgedIs(|data|, |f.payload|, limit);
    assert [f][1..] == [] && EncodedAll([]) + rest == rest;
  }

  lemma AllMaskedSplits(fs: seq<Frame>)
    requires fs != []
    ensures AllMasked(fs) <==> (fs[0].Data? ==> fs[0].key.With?) && AllMasked(fs[1..])
  {
    assert fs == [fs[0]] + fs[1..];
  }

  /** A receiver that has `data` and is given `fs` ends up with the whole message, if and only
      if it takes them all. */
  predicate Keeps(
      r: Outcome, fs: seq<Frame>, op: nat, rest: seq<byte>, data: seq<byte>, client: bool, limit: nat) {
    if Takeable(fs, |data|, limit) && (client || AllMasked(fs))
    then r == Message(op, data + Payloads(fs), rest, Pings(fs))
    else !r.Message?
  }

  lemma {:induction false} MiddleFrame(
      fs: seq<Frame>, opcode: nat, rest: seq<byte>, data: seq<byte>, client: bool, limit: nat, next: Outcome)
    requires fs != [] && fs[0].Data? && !fs[0].fin && forall i :: 0 <= i < |fs| ==> Sendable(fs[i])
    requires |data| < TWO_32 && limit < TWO_32
    requires next == ReceivedFrames(
      fs[1..], rest, FirstOpcode(opcode, fs[0].opcode), data + fs[0].payload, client, limit)
    ensures var r := ReceivedFrames(fs, rest, opcode, data, client, limit);
      if (client || fs[0].key.With?) && Takes(|data|, |fs[0].payload|, limit) then r == next else !r.Message?
  {
    JudgedIs(|data|, |fs[0].payload|, limit);
  }

  lemma {:induction false} MiddleKeeps(
      fs: seq<Frame>, op: nat, rest: seq<byte>, data: seq<byte>, client: bool, limit: nat, next: Outcome, r: Outcome)
    requires fs != [] && fs[0].Data?
    requires var ok := (client || fs[0].key.With?) && Takes(|data|, |fs[0].payload|, limit);
      if ok then r == next && Keeps(next, fs[1..], op, rest, data + fs[0].payload, client, limit) else !r.Message?
    ensures Keeps(r, fs, op, rest, data, client, limit)
  {
    AllMaskedSplits(fs);
    Regroup(data, fs[0].payload, Payloads(fs[1..]));
  }

  lemma {:induction false} ControlKeeps(
      fs: seq<Frame>, op: nat, rest: seq<byte>, data: seq<byte>, client: bool, limit: nat, next: Outcome)
    requires fs != [] && !fs[0].Data? && Keeps(next, fs[1..], op, rest, data, client, limit)
    ensures Keeps(if fs[0].Ping? then WithPong(next) else next, fs, op, rest, data, client, limit)
  {
    AllMaskedSplits(fs);
  }

  lemma {:induction false} FramesReassemble(
      fs: seq<Frame>, op: nat, started: bool, rest: seq<byte>, data: seq<byte>, client: bool, limit: nat, r: Outcome)
    requires op in {TEXT_FRAME, BIN_FRAME} && Fragments(fs, op, started)
    requires (forall i :: 0 <= i < |fs| ==> Sendable(fs[i])) && |data| < TWO_32 && limit < TWO_32
    requires r == ReceivedFrames(fs, rest, if started then op else 0, data, client, limit)
    ensures Keeps(r, fs, op, rest, data, client, limit)
  {
    var f, opcode := fs[0], if started then op else 0;
    if !f.Data? {
      var next := ReceivedFrames(fs[1..], rest, opcode, data, client, limit);
      FramesReassemble(fs[1..], op, started, rest, data, client, limit, next);
      ControlKeeps(fs, op, rest, data, client, limit, next);
    } else if f.fin {
      assert fs == [f];
      AllMaskedSplits(fs);
      LastFrame(f, opcode, rest, data, client, limit);
    } else {
      var next := ReceivedFrames(fs[1..], rest, op, data + f.payload, client, limit);
      MiddleFrame(fs, opcode, rest, data, client, limit, next);
      if (client || f.key.With?) && Takes(|data|, |f.payload|, limit) {
        FramesReassemble(fs[1..], op, true, rest, data + f.payload, client, limit, next);
      }
      MiddleKeeps(fs, op, rest, data, client, limit, next, r);
    }
  }

  /** A message in fragments is put together again, whatever its masks and whatever pings
      and pongs come between, if and only if the receiver takes every fragment and they are
      masked when they come from a client; what follows it is left, and each ping is answered. */
  lemma {:induction false} Reassembled(fs: seq<Frame>, op: nat, rest: seq<byte>, client: bool, limit: nat)
    requires op in {TEXT_FRAME, BIN_FRAME} && Fragments(fs, op, false) && limit < TWO_32
    requires forall i :: 0 <= i < |fs| ==> Sendable(fs[i])
    ensures var r := Received(EncodedAll(fs) + rest, 0, [], client, limit);
      if Takeable(fs, 0, limit) && (client || AllMasked(fs))
      then r == Message(op, Payloads(fs), rest, Pings(fs))
      else !r.Message?
  {
    BytesAreFrames(fs, rest, 0, [], client, limit);
    FramesReassemble(fs, op, false, rest, [], client, limit, ReceivedFrames(fs, rest, 0, [], client, limit));
    assert [] + Payloads(fs) == Payloads(fs);
  }

  /** Being below the limit is not enough: the stream is closed on an empty fragment, and on one
      whose length is no `int`. */
  lemma {:induction false} BelowLimitIsNotEnough(f: Frame, rest: seq<byte>, client: bool, limit: nat)
    requires f.Data? && Sendable(f) && f.key.With? && |f.payload| < limit < TWO_32
    requires f.payload == [] || TWO_31 <= |f.payload|
    ensures Received(Encoded(f) + rest, 0, [], client, limit) == Closed(0)
  {
    FrameStep(f, rest, 0, [], client, limit);
    JudgedIs(0, |f.payload|, limit);
  }

  lemma {:induction false} SomeData(fs: seq<Frame>, op: nat, started: bool)
    requires Fragments(fs, op, started)
    ensures exists i :: 0 <= i < |fs| && fs[i].Data?
  {
    if !fs[0].Data? {
      SomeData(fs[1..], op, started);
      var i :| 0 <= i < |fs[1..]| && fs[1..][i].Data?;
      assert fs[i + 1].Data?;
    }
  }

  lemma {:induction false} ValueBound(bytes: seq<byte>)
    ensures ValueOf(bytes) < Power256(|bytes|)
  {
    if bytes != [] {
      ValueBound(bytes[1..]);
    }
  }

  lemma LengthBound(code: nat, bytes: seq<byte>)
    requires code < 128 && |bytes| == Extra(code)
    ensures (if bytes == [] then code else FromMemory(Big, bytes)) < TWO_64
  {
    ValueBound(Reversed(bytes));
    assert Power256(2) == 65536;
    assert Power256(4) == 0x1_0000_0000;
    assert Power256(8) == TWO_64;
  }

  /** A body that was read was taken, and one is lost only after too many bytes. */
  lemma {:induction false} BodyIsTaken(code: nat, masked: bool, input: seq<byte>, have: nat, limit: nat)
    requires code < 128 && have < TWO_32 && limit < TWO_32
    ensures var r := ReadBody(code, masked, input, have, limit);
      && (r.Body? ==> Takes(have, |r.payload|, limit) && |r.rest| < |input|)
      && (r.Wild? ==> have >= TWO_31)
  {
    if |input| >= Extra(code) {
      var bytes := input[..Extra(code)];
      LengthBound(code, bytes);
      JudgedIs(have, if bytes == [] then code else FromMemory(Big, bytes), limit);
    }
  }

  lemma {:induction false} NeverUndefined(input: seq<byte>, opcode: nat, data: seq<byte>, client: bool, limit: nat)
    requires |data| < TWO_31 && limit <= TWO_31
    ensures !Received(input, opcode, data, client, limit).Undefined?
    decreases |input|
  {
    if |input| >= 2 {
      var a, b, after := input[0], input[1], input[2..];
      var op, body := a % 16, ReadBody(b % 128, b >= 128, after, |data|, limit);
      BodyIsTaken(b % 128, b >= 128, after, |data|, limit);
      if op !in {CONTINUE, TEXT_FRAME, BIN_FRAME} {
        NeverUndefined(after, opcode, data, client, limit);
      } else if body.Body? && a < 128 {
        NeverUndefined(body.rest, FirstOpcode(opcode, op), data + body.payload, client, limit);
      }
    }
  }

  /** With a limit that an `int` can hold, such as the 32 MB it has by default: if and only if
      the message is below the limit, no fragment is empty, and they are masked when they come
      from a client. Otherwise the stream is closed. */
  lemma {:induction false} ReassembledBelowLimit(fs: seq<Frame>, op: nat, rest: seq<byte>, client: bool, limit: nat)
    requires op in {TEXT_FRAME, BIN_FRAME} && Fragments(fs, op, false) && limit <= TWO_31
    requires forall i :: 0 <= i < |fs| ==> Sendable(fs[i])
    ensures var r := Received(EncodedAll(fs) + rest, 0, [], client, limit);
      if |Payloads(fs)| < limit && NoneEmpty(fs) && (client || AllMasked(fs))
      then r == Message(op, Payloads(fs), rest, Pings(fs))
      else r.Closed?
  {
    Reassembled(fs, op, rest, client, limit);
    SomeData(fs, op, false);
    TakeableBelowLimit(fs, 0, limit);
    NeverUndefined(EncodedAll(fs) + rest, 0, [], client, limit);
  }
}

/** Sending and receiving messages over a stream (Sylar/HttpServer/ws_session.cc and
    Sylar/stream.cc). */
module WebSocketSession {
  import opened Integers
  import opened Prelude
  import opened WebSocket

  /** What goes out of `bytes` when there is `room` for so many. */
  function Cut(bytes: seq<byte>, room: nat): seq<byte> {
    if |bytes| <= room then bytes else bytes[..room]
  }

  /** The room that is left then. */
  function Left(bytes: seq<byte>, room: nat): nat {
    if |bytes| <= room then room - |bytes| else 0
  }

  lemma CutConcat(a: seq<byte>, b: seq<byte>, room: nat)
    ensures Cut(a + b, room) == if |a| <= room then a + Cut(b, room - |a|) else Cut(a, room)
    ensures Left(a + b, room) == if |a| <= room then Left(b, room - |a|) else 0
  {
  }

  /** A stream that may give and take less than it is asked for. It takes `room` more bytes before
      its writes fail. */
  class Stream {
    var input: seq<byte>
    var output: seq<byte>
    var room: nat
    var open: bool

    constructor (input: seq<byte>, room: nat)
      ensures this.input == input && output == [] && this.room == room && open
    {
      this.input := input;
      output := [];
      this.room := room;
      open := true;
    }

    method Read(n: nat) returns (data: seq<byte>)
      requires n > 0
      modifies this`input
      ensures |data| <= n && |data| <= |old(input)| && (data == [] <==> old(input) == [])
      ensures data == old(input)[..|data|] && input == old(input)[|data|..]
    {
      if input == [] {
        return [];
      }
      var k :| 0 < k <= n && k <= |input|;
      data := input[..k];
      input := input[k..];
    }

    method Write(bytes: seq<byte>) returns (n: nat)
      requires bytes != []
      modifies this`output, this`room
      ensures n <= |bytes| && n <= old(room) && (n == 0 <==> old(room) == 0)
      ensures output == old(output) + bytes[..n] && room == old(room) - n
    {
      if room == 0 {
        return 0;
      }
      var k :| 0 < k <= |bytes| && k <= room;
      output, room := output + bytes[..k], room - k;
      n := k;
    }

    /** `readFixSize`: all of it, whatever the short reads, or a failure. What is left is counted
        in a signed number, and the result is an `int`; it is not positive for some lengths
        although everything has been read. */
    method ReadFixSize(n: nat) returns (got: int, data: seq<byte>)
      requires n < TWO_64
      modifies this`input
      ensures n < TWO_63 && |old(input)| < n ==> got == 0
      ensures n < TWO_63 && |old(input)| >= n ==>
        got == Int32(n) && data == old(input)[..n] && input == old(input)[n..]
      ensures n >= TWO_63 ==> got == Int32(n) && data == [] && input == old(input)
    {
      data := [];
      ghost var all: nat := if n < TWO_63 then n else 0;
      var left: int := if n < TWO_63 then n else n - TWO_64;
      while left > 0
        invariant n < TWO_63 ==> 0 <= left <= n
        invariant n >= TWO_63 ==> left < 0
        invariant |data| == (if left > 0 then n - left else all) <= |old(input)|
        invariant data == old(input)[..|data|] && input == old(input)[|data|..]
        decreases left
      {
        var part := Read(left);
        if part == [] {
          return 0, data;
        }
        data := data + part;
        left := left - |part|;
      }
      got := Int32(n);
    }

    /** `writeFixSize`. */
    method WriteFixSize(bytes: seq<byte>) returns (put: int)
      modifies this`output, this`room
      ensures output == old(output) + Cut(bytes, old(room)) && room == Left(bytes, old(room))
      ensures put == if |bytes| <= old(room) then Int32(|bytes|) else 0
    {
      var offset: nat := 0;
      while offset < |bytes|
        invariant offset <= |bytes| && offset + room == old(room)
        invariant output == old(output) + bytes[..offset]
        decreases |bytes| - offset
      {
        var n := Write(bytes[offset..]);
        if n == 0 {
          return 0;
        }
        assert bytes[..offset] + bytes[offset..][..n] == bytes[..offset + n];
        offset := offset + n;
      }
      assert bytes[..offset] == bytes;
      put := Int32(|bytes|);
    }

    method Close()
      modifies this`open
      ensures !open
    {
      open := false;
    }
  }

  // ---------------------------------------------------------------- sending

  /** The masking loops, which work in place. */
  method MaskInPlace(data: array<byte>, from: nat, mask: Mask)
    requires from <= data.Length
    modifies data
    ensures data[..] == old(data[..from]) + Masked(old(data[from..]), mask)
  {
    var i := 0;
    while i < data.Length - from
      invariant 0 <= i <= data.Length - from
      invariant forall k :: 0 <= k < i ==> data[from + k] == XorByte(old(data[from + k]), mask[k % 4])
      invariant forall k :: 0 <= k < data.Length && !(from <= k < from + i) ==> data[k] == old(data[k])
    {
      data[from + i] := XorByte(data[from + i], mask[i % 4]);
      i := i + 1;
    }
    assert forall k :: from <= k < data.Length ==>
      data[from + (k - from)] == XorByte(old(data[k]), mask[(k - from) % 4]);
  }

  method MaskAll(data: array<byte>, mask: Mask)
    modifies data
    ensures data[..] == Masked(old(data[..]), mask)
  {
    assert data[0..] == data[..] && data[..0] == [];
    MaskInPlace(data, 0, mask);
  }

  function Head(fin: bool, opcode: nat, size: nat, client: bool): seq<byte>
    requires opcode < 16 && size < TWO_64
  {
    LengthRoundTrip(size);
    [FirstByte(fin, opcode), SecondByte(LengthCode(size), client)]
  }

  /** Two pieces are written one after the other, the second one only if the first one went out;
      the answer is that of the last write. */
  method WriteBoth(stream: Stream, a: seq<byte>, b: seq<byte>) returns (put: int)
    requires 0 < |a| < TWO_31
    modifies stream`output, stream`room
    ensures stream.output == old(stream.output) + Cut(a + b, old(stream.room))
    ensures stream.room == Left(a + b, old(stream.room))
    ensures put == if |a + b| <= old(stream.room) then Int32(|b|) else 0
  {
    CutConcat(a, b, stream.room);
    put := stream.WriteFixSize(a);
    if put > 0 {
      Regroup(old(stream.output), a, Cut(b, stream.room));
      put := stream.WriteFixSize(b);
    }
  }

  /** The two bytes of the head and the length. */
  method SendHead(stream: Stream, head: seq<byte>, len: seq<byte>) returns (ok: bool)
    requires |head| == 2 && |len| <= 8
    modifies stream`output, stream`room
    ensures stream.output == old(stream.output) + Cut(head + len, old(stream.room))
    ensures stream.room == Left(head + len, old(stream.room)) && ok == (|head + len| <= old(stream.room))
  {
    var put;
    if len == [] {
      assert head + len == head;
      put := stream.WriteFixSize(head);
    } else {
      put := WriteBoth(stream, head, len);
    }
    ok := put > 0;
  }

  /** The mask, if there is one, and the payload. */
  method SendPayload(stream: Stream, data: array<byte>, client: bool, mask: Mask) returns (put: int)
    modifies stream`output, stream`room, data
    ensures var bytes := Keyed(if client then With(mask) else Clear, old(data[..]));
      && stream.output == old(stream.output) + Cut(bytes, old(stream.room))
      && stream.room == Left(bytes, old(stream.room))
      && put == if |bytes| <= old(stream.room) then Int32(data.Length) else 0
    ensures data[..] == if client then Masked(old(data[..]), mask) else old(data[..])
  {
    if client {
      MaskAll(data, mask);
      put := WriteBoth(stream, mask, data[..]);
    } else {
      put := stream.WriteFixSize(data[..]);
    }
  }

  /** `WSSendMessage`. A client leaves its message masked, once the head has gone out. The opcode
      is cut to four bits. The frame goes out as far as there is room; the call fails if there is
      too little, and also if the message is empty or its length is no positive `int`. */
  method SendMessage(stream: Stream, opcode: int, data: array<byte>, client: bool, fin: bool, mask: Mask)
    returns (sent: int)
    requires data.Length < TWO_63
    modifies stream, data
    ensures var bytes := Encoded(Data(fin, opcode % 16, if client then With(mask) else Clear, old(data[..])));
      var ok := |bytes| <= old(stream.room) && Int32(data.Length) > 0;
      && stream.output == old(stream.output) + Cut(bytes, old(stream.room))
      && sent == (if ok then Int32(data.Length + 2) else -1)
      && stream.open == (if ok then old(stream.open) else false)
    ensures var began := 2 + Extra(LengthCode(data.Length)) <= old(stream.room);
      data[..] == if client && began then Masked(old(data[..]), mask) else old(data[..])
    ensures stream.input == old(stream.input)
  {
    var size := data.Length;
    var head, len := Head(fin, opcode % 16, size, client), Memory(Big, Extra(LengthCode(size)), size);
    ghost var keyed := Keyed(if client then With(mask) else Clear, data[..]);
    FrameBytes(stream.output, head, len, keyed, stream.room);
    var put := 0;
    var began := SendHead(stream, head, len);
    if began {
      put := SendPayload(stream, data, client, mask);
    }
    if put <= 0 {
      stream.Close();
      return -1;
    }
    sent := Int32(size + 2);
  }

  lemma FrameBytes(out: seq<byte>, head: seq<byte>, len: seq<byte>, keyed: seq<byte>, room: nat)
    ensures Cut(head + (len + keyed), room) ==
      if |head + len| <= room then (head + len) + Cut(keyed, room - |head + len|) else Cut(head + len, room)
    ensures |head + len| <= room ==>
      (out + (head + len)) + Cut(keyed, room - |head + len|) == out + Cut(head + (len + keyed), room)
  {
    Regroup(head, len, keyed);
    CutConcat(head + len, keyed, room);
    if |head + len| <= room {
      Regroup(out, head + len, Cut(keyed, room - |head + len|));
    }
  }

  // ---------------------------------------------------------------- receiving

  /** Reads the rest of a data frame whose head has been read. */
  method ReceiveBody(stream: Stream, code: nat, masked: bool, have: nat, limit: nat) returns (r: Body)
    requires code < 128 && have < TWO_32 && limit < TWO_32
    modifies stream`input
    ensures r == ReadBody(code, masked, old(stream.input), have, limit)
    ensures r.Body? ==> stream.input == r.rest
  {
    var got, bytes := stream.ReadFixSize(Extra(code));
    if Extra(code) > 0 && got <= 0 {
      return Bad;
    }
    LengthBound(code, bytes);
    var length := if Extra(code) == 0 then code else FromMemory(Big, bytes);
    JudgedIs(have, length, limit);
    if (Int32(have) + length) % TWO_64 >= limit {
      return Bad;
    }
    var key := Clear;
    if masked {
      got, bytes := stream.ReadFixSize(4);
      if got <= 0 {
        return Bad;
      }
      key := With(bytes);
    }
    if Int32(have) < 0 {
      return Wild;
    }
    r := ReceivePayload(stream, length, key);
  }

  method ReceivePayload(stream: Stream, length: nat, key: Key) returns (r: Body)
    requires length < TWO_64 && (Int32(length) > 0 ==> length < TWO_63)
    modifies stream`input
    ensures r == if Int32(length) <= 0 then Bad else Payload(old(stream.input), length, key)
    ensures r.Body? ==> stream.input == r.rest
  {
    var got, bytes := stream.ReadFixSize(length);
    if got <= 0 {
      return Bad;
    }
    var data := new byte[|bytes|](i requires 0 <= i < |bytes| => bytes[i]);
    assert data[..] == bytes;
    if key.With? {
      MaskAll(data, key.mask);
    }
    r := Body(data[..], stream.input);
  }

  function Pongs(n: nat): seq<byte> {
    if n == 0 then [] else Pongs(n - 1) + Encoded(Pong)
  }

  /** What has been answered so far, before what is still to come. */
  function Later(pongs: nat, r: Outcome): Outcome {
    r.(pongs := pongs + r.pongs)
  }

  /** What one turn of the receive loop comes to. */
  datatype Turn =
    | Go(opcode: nat, data: seq<byte>)
    | Done(opcode: nat, data: seq<byte>)
    | Fail
    | Mute  // a ping could not be answered
    | Astray

  /** What is still to come of the call, after such a turn. */
  ghost predicate Pending(t: Turn, next: Outcome, input: seq<byte>, client: bool, limit: nat) {
    match t
    case Go(o, d) => |d| < TWO_32 && limit < TWO_32 && next == Received(input, o, d, client, limit)
    case Done(o, d) => next == Message(o, d, input, 0)
    case Fail => next == Closed(0)
    case Mute => next.pongs > 0
    case Astray => next == Undefined(0)
  }

  /** `pongs` pings have been answered since there was `room`, and `sent` is what went out before. */
  ghost predicate Answered(stream: Stream, sent: seq<byte>, room: nat, pongs: nat)
    reads stream
  {
    stream.output == sent + Pongs(pongs) && stream.room + 2 * pongs == room
  }

  /** There was no room for one more answer. */
  ghost predicate RoomRanOut(stream: Stream, sent: seq<byte>, room: nat, pongs: nat)
    reads stream
  {
    && 2 * pongs <= room < 2 * pongs + 2
    && stream.output == (sent + Pongs(pongs)) + Cut(Encoded(Pong), room - 2 * pongs)
  }

  /** `WSPong`. */
  method AnswerPing(stream: Stream, ghost sent: seq<byte>, ghost room: nat, ghost pongs: nat) returns (ok: bool)
    requires Answered(stream, sent, room, pongs)
    modifies stream`output, stream`room
    ensures if ok then Answered(stream, sent, room, pongs + 1) else RoomRanOut(stream, sent, room, pongs)
  {
    PongsMore(sent, pongs);
    assert |Encoded(Pong)| == 2;
    var put := stream.WriteFixSize(Encoded(Pong));
    ok := put > 0;
  }

  method ReceiveFrame(stream: Stream, last: Turn, client: bool, limit: nat,
                      ghost now: Outcome, ghost pongs: nat, ghost sent: seq<byte>, ghost room: nat)
    returns (t: Turn, ghost next: Outcome, ghost pongs': nat)
    requires last.Go? && Pending(last, now, stream.input, client, limit) && Answered(stream, sent, room, pongs)
    modifies stream`input, stream`output, stream`room
    ensures Pending(t, next, stream.input, client, limit) && Later(pongs, now) == Later(pongs', next)
    ensures t.Go? ==> |stream.input| < |old(stream.input)|
    ensures t.Mute? ==> RoomRanOut(stream, sent, room, pongs')
    ensures !t.Mute? ==> Answered(stream, sent, room, pongs')
  {
    var got, head := stream.ReadFixSize(2);
    if got <= 0 {
      return Fail, now, pongs;
    }
    assert head[0] == old(stream.input)[0] && head[1] == old(stream.input)[1];
    assert now == AfterHead(head[0], head[1], stream.input, last.opcode, last.data, client, limit);
    var op := head[0] % 16;
    if op == PING {
      var ok := AnswerPing(stream, sent, room, pongs);
      if !ok {
        return Mute, now, pongs;
      }
      return last, Received(stream.input, last.opcode, last.data, client, limit), pongs + 1;
    }
    next, pongs' := now, pongs;
    if op == CONTINUE || op == TEXT_FRAME || op == BIN_FRAME {
      t := ReceiveData(stream, last, head[0], head[1], client, limit, now);
    } else {
      t := last;
    }
  }

  /** The turn for a data frame whose head has been read. */
  method ReceiveData(stream: Stream, last: Turn, a: byte, b: byte, client: bool, limit: nat, ghost now: Outcome)
    returns (t: Turn)
    requires last.Go? && |last.data| < TWO_32 && limit < TWO_32
    requires now == AfterHead(a, b, stream.input, last.opcode, last.data, client, limit)
    requires a % 16 in {CONTINUE, TEXT_FRAME, BIN_FRAME}
    modifies stream`input
    ensures Pending(t, now, stream.input, client, limit) && !t.Mute?
    ensures t.Go? ==> |stream.input| < |old(stream.input)|
  {
    var op, fin, code, masked := a % 16, a >= 128, b % 128, b >= 128;
    if !client && !masked {
      return Fail;
    }
    var body := ReceiveBody(stream, code, masked, |last.data|, limit);
    BodyIsTaken(code, masked, old(stream.input), |last.data|, limit);
    if body.Bad? {
      return Fail;
    }
    if body.Wild? {
      return Astray;
    }
    var opcode, data := FirstOpcode(last.opcode, op), last.data + body.payload;
    t := if fin then Done(opcode, data) else Go(opcode, data);
  }

  lemma PongsMore(out: seq<byte>, n: nat)
    ensures (out + Pongs(n)) + Encoded(Pong) == out + Pongs(n + 1)
  {
    Regroup(out, Pongs(n), Encoded(Pong));
  }

  lemma {:induction false} PongsAreTwo(n: nat)
    ensures |Pongs(n)| == 2 * n
  {
    if n > 0 {
      PongsAreTwo(n - 1);
    }
  }

  /** When the room runs out after `k` of `n` pongs. */
  lemma {:induction false} PongsCut(n: nat, k: nat, room: nat)
    requires k < n && 2 * k <= room < 2 * k + 2
    ensures Cut(Pongs(n), room) == Pongs(k) + Cut(Encoded(Pong), room - 2 * k)
  {
    PongsAreTwo(n - 1);
    CutConcat(Pongs(n - 1), Encoded(Pong), room);
    if k < n - 1 {
      PongsCut(n - 1, k, room);
    }
  }

  /** `WSRecvMessage`: what it makes of the input is the specification's, if there is room to answer
      the pings on the way; otherwise the stream is closed at the first that cannot be answered.
      Nothing is promised about the result where it is undefined. */
  method ReceiveMessage(stream: Stream, client: bool, limit: nat) returns (r: Option<(nat, seq<byte>)>)
    requires limit < TWO_32
    modifies stream
    ensures var out := Received(old(stream.input), 0, [], client, limit);
      && stream.output == old(stream.output) + Cut(Pongs(out.pongs), old(stream.room))
      && (out.Message? && 2 * out.pongs <= old(stream.room) ==>
            r == Some((out.opcode, out.data)) && stream.input == out.rest && stream.open == old(stream.open))
      && (out.Closed? || 2 * out.pongs > old(stream.room) ==> r == None && !stream.open)
  {
    r := ReceiveLoop(stream, client, limit, Received(stream.input, 0, [], client, limit));
  }

  method ReceiveLoop(stream: Stream, client: bool, limit: nat, ghost out: Outcome) returns (r: Option<(nat, seq<byte>)>)
    requires limit < TWO_32 && out == Received(stream.input, 0, [], client, limit)
    modifies stream
    ensures stream.output == old(stream.output) + Cut(Pongs(out.pongs), old(stream.room))
    ensures out.Message? && 2 * out.pongs <= old(stream.room) ==>
      r == Some((out.opcode, out.data)) && stream.input == out.rest && stream.open == old(stream.open)
    ensures out.Closed? || 2 * out.pongs > old(stream.room) ==> r == None && !stream.open
  {
    ghost var next, pongs: nat, sent, room := out, 0, stream.output, stream.room;
    var t := Go(0, []);
    assert sent + Pongs(0) == sent;
    while t.Go?
      invariant Pending(t, next, stream.input, client, limit) && out == Later(pongs, next)
      invariant t.Mute? ==> RoomRanOut(stream, sent, room, pongs)
      invariant !t.Mute? ==> Answered(stream, sent, room, pongs)
      invariant stream.open == old(stream.open)
      decreases t.Go?, |stream.input|
    {
      t, next, pongs := ReceiveFrame(stream, t, client, limit, next, pongs, sent, room);
    }
    PongsAreTwo(out.pongs);
    if t.Mute? {
      PongsCut(out.pongs, pongs, room);
      Regroup(sent, Pongs(pongs), Cut(Encoded(Pong), room - 2 * pongs));
    }
    if t.Fail? || t.Mute? {
      stream.Close();
      return None;
    }
    if t.Astray? {
      return None;
    }
    r := Some((t.opcode, t.data));
  }
}

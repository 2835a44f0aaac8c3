/** The bitmap itself (Sylar/DataStructure/bitmap.cc). */
module Bitmaps {
  import opened Prelude
  import opened Bits
  import opened BitmapCodec

  const WORDS_PER_CHUNK := 4
  const BITS_PER_CHUNK := 56

  datatype Status = Done | SizeMismatch | Unsupported

  /** `ceil(size / VALUE_SIZE)`. */
  function WordCount(size: nat): nat {
    (size + VALUE_SIZE - 1) / VALUE_SIZE
  }

  /** Every run covers whole words. */
  predicate Aligned(ts: seq<Token>) {
    forall i :: 0 <= i < |ts| && ts[i].Run? ==> ts[i].bits % VALUE_SIZE == 0
  }

  function Zip(f: (Word, Word) -> Word, a: seq<Word>, b: seq<Word>): (r: seq<Word>)
    requires |a| == |b|
    ensures |r| == |a| && forall i :: 0 <= i < |a| ==> r[i] == f(a[i], b[i])
  {
    seq(|a|, i requires 0 <= i < |a| => f(a[i], b[i]))
  }

  function AndWord(a: Word, b: Word): Word {
    And(a, b)
  }

  function OrWord(a: Word, b: Word): Word {
    Pow2Values();
    OrBound(16, a, b);
    Or(a, b)
  }

  // ---------------------------------------------------------------- four words at a time

  /** Consecutive words in memory, read as one number by a little-endian machine. */
  function Pack(ws: seq<Word>): nat {
    if ws == [] then 0 else Join(16, ws[0], Pack(ws[1..]))
  }

  function Unpack(n: nat, x: nat): (ws: seq<nat>)
    ensures |ws| == n
  {
    if n == 0 then [] else [Low(16, x)] + Unpack(n - 1, High(16, x))
  }

  lemma {:induction false} UnpackPack(ws: seq<Word>)
    ensures Unpack(|ws|, Pack(ws)) == ws
  {
    if ws != [] {
      UnpackPack(ws[1..]);
      Pow2Sixteen();
      JoinSplits(16, ws[0], Pack(ws[1..]));
      assert ws == [ws[0]] + ws[1..];
    }
  }

  lemma Pow2Sixteen()
    ensures Pow2(16) == 0x1_0000
  {
    Pow2Values();
  }

  predicate AllZero(ws: seq<Word>) {
    forall i :: 0 <= i < |ws| ==> ws[i] == 0
  }

  lemma {:induction false} PackIsZero(ws: seq<Word>)
    ensures Pack(ws) == 0 <==> AllZero(ws)
  {
    if ws != [] {
      PackIsZero(ws[1..]);
      Pow2Sixteen();
      JoinSplits(16, ws[0], Pack(ws[1..]));
      assert ws == [ws[0]] + ws[1..];
    }
  }

  /** The wide operation is the operation on each word. */
  lemma {:induction false} PackAnd(a: seq<Word>, b: seq<Word>)
    requires |a| == |b|
    ensures And(Pack(a), Pack(b)) == Pack(Zip(AndWord, a, b))
  {
    if a != [] {
      PackAnd(a[1..], b[1..]);
      AndJoin(16, a[0], Pack(a[1..]), b[0], Pack(b[1..]));
      assert Zip(AndWord, a, b)[1..] == Zip(AndWord, a[1..], b[1..]);
    }
  }

  lemma {:induction false} PackOr(a: seq<Word>, b: seq<Word>)
    requires |a| == |b|
    ensures Or(Pack(a), Pack(b)) == Pack(Zip(OrWord, a, b))
  {
    if a != [] {
      PackOr(a[1..], b[1..]);
      OrJoin(16, a[0], Pack(a[1..]), b[0], Pack(b[1..]));
      assert Zip(OrWord, a, b)[1..] == Zip(OrWord, a[1..], b[1..]);
    }
  }

  // ---------------------------------------------------------------- writing runs

  /** The digit loop of `compress`. */
  method WriteDigits(buffer: array<Word>, at: nat, v: bool, bits: nat) returns (end: nat)
    requires at + |Digits(v, bits)| <= buffer.Length
    modifies buffer
    ensures end <= buffer.Length && buffer[..end] == old(buffer[..at]) + Digits(v, bits)
  {
    var left: nat := bits;
    end := at;
    while left > 0
      invariant at <= end && end + |Digits(v, left)| <= buffer.Length
      invariant buffer[..end] + Digits(v, left) == old(buffer[..at]) + Digits(v, bits)
    {
      ghost var before := buffer[..end];
      buffer[end] := RunWord(v, left % BASE);
      end := end + 1;
      assert buffer[..end] == before + [RunWord(v, left % BASE)];
      left := left / BASE;
    }
  }

  /** Writes out `pending` counted words of value `v`. */
  method WriteRun(buffer: array<Word>, at: nat, v: bool, pending: nat) returns (end: nat)
    requires at + |EmitAll(Flush(v, pending))| <= buffer.Length
    modifies buffer
    ensures end <= buffer.Length && buffer[..end] == old(buffer[..at]) + EmitAll(Flush(v, pending))
  {
    end := at;
    if pending > 1 {
      assert EmitAll(Flush(v, pending)) == Digits(v, VALUE_SIZE * pending);
      end := WriteDigits(buffer, at, v, VALUE_SIZE * pending);
    } else if pending == 1 {
      assert EmitAll(Flush(v, pending)) == [Uniform(v)];
      buffer[at] := Uniform(v);
      end := at + 1;
    }
  }

  datatype Counter = Counter(value: bool, pending: nat)

  /** What one more word does to the counted run. */
  function Counted(s: Counter, w: Word): Counter {
    if Payload(w) == Uniform(s.value) then s.(pending := s.pending + 1)
    else if Payload(w) in {0, FULL} then Counter(!s.value, 1)
    else s.(pending := 0)
  }

  /** The words that it causes to be written. */
  function Written(s: Counter, w: Word): seq<Word> {
    if Payload(w) == Uniform(s.value) then []
    else if Payload(w) in {0, FULL} then EmitAll(Flush(s.value, s.pending))
    else EmitAll(Flush(s.value, s.pending)) + [w]
  }

  function Rest(ws: seq<Word>, s: Counter): seq<Word> {
    EmitAll(Tokens(ws, s.value, s.pending))
  }

  lemma {:induction false} EmitMixed(v: bool, n: nat, w: Word, ts: seq<Token>)
    ensures EmitAll(Flush(v, n) + ([Literal(w)] + ts)) == (EmitAll(Flush(v, n)) + [w]) + EmitAll(ts)
  {
    EmitConcat(Flush(v, n), [Literal(w)] + ts);
    EmitConcat([Literal(w)], ts);
    assert EmitAll([Literal(w)]) == [w];
    Regroup(EmitAll(Flush(v, n)), [w], EmitAll(ts));
  }

  lemma StepEmits(ws: seq<Word>, s: Counter)
    requires ws != []
    ensures Rest(ws, s) == Written(s, ws[0]) + Rest(ws[1..], Counted(s, ws[0]))
  {
    var w, rest := ws[0], ws[1..];
    if Payload(w) == Uniform(s.value) {
    } else if Payload(w) in {0, FULL} {
      EmitConcat(Flush(s.value, s.pending), Tokens(rest, !s.value, 1));
    } else {
      EmitMixed(s.value, s.pending, w, Tokens(rest, s.value, 0));
    }
  }

  /** The counted run and the words written after the first `i` words. */
  function CountedUpTo(ws: seq<Word>, i: nat): Counter
    requires i <= |ws|
  {
    if i == 0 then Counter(false, 0) else Counted(CountedUpTo(ws, i - 1), ws[i - 1])
  }

  /** What a word makes a loop write, by the run counted so far. */
  type Writer = (Counter, Word) -> seq<Word>

  function WrittenUpTo(ws: seq<Word>, i: nat, write: Writer): seq<Word>
    requires i <= |ws|
  {
    if i == 0 then [] else WrittenUpTo(ws, i - 1, write) + write(CountedUpTo(ws, i - 1), ws[i - 1])
  }

  /** What a loop has written and what remains to be written stay the same whole, if each word
      takes from the remainder what it causes to be written. */
  lemma {:induction false} LoopWrites(ws: seq<Word>, rest: (nat, Counter) -> seq<Word>, write: Writer, i: nat)
    requires i <= |ws|
    requires forall k: nat, s {:trigger write(s, ws[k])} ::
      k < |ws| ==> rest(k, s) == write(s, ws[k]) + rest(k + 1, Counted(s, ws[k]))
    ensures WrittenUpTo(ws, i, write) + rest(i, CountedUpTo(ws, i)) == rest(0, Counter(false, 0))
  {
    if i > 0 {
      LoopWrites(ws, rest, write, i - 1);
      var s := CountedUpTo(ws, i - 1);
      Regroup(WrittenUpTo(ws, i - 1, write), write(s, ws[i - 1]), rest(i, CountedUpTo(ws, i)));
    }
  }

  /** The loop and the recursive encoder write the same words. */
  lemma {:induction false} LoopWritesCode(ws: seq<Word>)
    ensures var s := CountedUpTo(ws, |ws|);
      WrittenUpTo(ws, |ws|, Written) + EmitAll(Flush(s.value, s.pending)) == Encode(ws)
  {
    var rest := (i: nat, s: Counter) => if i <= |ws| then Rest(ws[i..], s) else [];
    forall k: nat, s | k < |ws|
      ensures rest(k, s) == Written(s, ws[k]) + rest(k + 1, Counted(s, ws[k]))
    {
      assert ws[k..][0] == ws[k] && ws[k..][1..] == ws[k + 1..];
      StepEmits(ws[k..], s);
    }
    LoopWrites(ws, rest, Written, |ws|);
    assert ws[0..] == ws && ws[|ws|..] == [];
  }

  lemma CountClassifies(w: Word)
    ensures PopCount(Payload(w)) == 0 <==> Payload(w) == 0
    ensures PopCount(Payload(w)) == VALUE_SIZE <==> Payload(w) == FULL
  {
    Pow2Values();
    PopCountExtremes(14, Payload(w));
  }

  /** One turn of the loop of `compress`. */
  method CompressWord(buffer: array<Word>, at: nat, s: Counter, w: Word) returns (s': Counter, end: nat)
    requires at + s.pending + 1 <= buffer.Length
    modifies buffer
    ensures s' == Counted(s, w) && at <= end && end + s'.pending <= at + s.pending + 1
    ensures buffer[..end] == old(buffer[..at]) + Written(s, w)
  {
    CountClassifies(w);
    FlushFits(s.value, s.pending);
    var c := PopCount(Payload(w));
    if (c == 0 && !s.value) || (c == VALUE_SIZE && s.value) {
      return s.(pending := s.pending + 1), at;
    }
    end := WriteRun(buffer, at, s.value, s.pending);
    if c == 0 || c == VALUE_SIZE {
      s' := Counter(c == VALUE_SIZE, 1);
    } else {
      ghost var written := buffer[..end];
      buffer[end] := w;
      end := end + 1;
      assert buffer[..end] == written + [w];
      s' := s.(pending := 0);
    }
  }

  // ---------------------------------------------------------------- reading along a plain bitmap

  /** Where the run words of value `v` from word `i` on end. */
  function RunEnd(bs: seq<Word>, i: nat, v: bool): (e: nat)
    requires i <= |bs|
    ensures i <= e <= |bs|
    decreases |bs| - i
  {
    if i < |bs| && SameRun(bs[i], v) then RunEnd(bs, i + 1, v) else i
  }

  function RunBits(bs: seq<Word>, i: nat, e: nat): nat
    requires i <= e <= |bs|
  {
    Count32(bs[i..e])
  }

  predicate RunIn(ws: seq<Word>, from: nat, to: nat, v: bool) {
    to <= |ws| && forall k :: from <= k < to ==> ws[k] == Uniform(v)
  }

  /** A reader that is at word `i` of the compressed `bs` when it has seen `p` plain words
      meets the rest of the plain words, run by run and word by word. */
  ghost predicate ReaderAt(plain: seq<Word>, bs: seq<Word>, i: nat, p: nat)
    decreases |bs| - i
  {
    && i <= |bs| && p <= |plain|
    && if i == |bs| then p == |plain|
       else if IsRunWord(bs[i]) then
         var v := RunValue(bs[i]);
         var e := RunEnd(bs, i + 1, v);
         var bits := RunBits(bs, i, e);
         var q := p + bits / VALUE_SIZE;
         bits % VALUE_SIZE == 0 && ReaderAt(plain, bs, e, q) && RunIn(plain, p, q, v)
       else
         p < |plain| && plain[p] == Payload(bs[i]) && ReaderAt(plain, bs, i + 1, p + 1)
  }

  lemma {:induction false} RunEndIsLength(bs: seq<Word>, i: nat, v: bool)
    requires i <= |bs|
    ensures RunEnd(bs, i, v) == i + RunLength(bs[i..], v)
    decreases |bs| - i
  {
    if i < |bs| && SameRun(bs[i], v) {
      RunEndIsLength(bs, i + 1, v);
      assert bs[i..][1..] == bs[i + 1..];
    }
  }

  lemma {:induction false} ParseRunAt(bs: seq<Word>, i: nat)
    requires i < |bs| && IsRunWord(bs[i])
    ensures var v := RunValue(bs[i]);
      var e := RunEnd(bs, i + 1, v);
      Parse(bs[i..]) == [Run(v, RunBits(bs, i, e))] + Parse(bs[e..])
  {
    var rest, v := bs[i..], RunValue(bs[i]);
    RunEndIsLength(bs, i, v);
    var n := RunLength(rest, v);
    assert rest[..n] == bs[i..i + n] && rest[n..] == bs[i + n..];
  }

  lemma {:induction false} ParseLiteralAt(bs: seq<Word>, i: nat)
    requires i < |bs| && !IsRunWord(bs[i])
    ensures Parse(bs[i..]) == [Literal(Payload(bs[i]))] + Parse(bs[i + 1..])
  {
    assert bs[i..][1..] == bs[i + 1..];
  }

  lemma {:induction false} FirstToken(t: Token, ts: seq<Token>)
    requires Aligned([t] + ts)
    ensures Aligned([t]) && Aligned(ts) && ExpandAll([t] + ts) == Expand(t) + ExpandAll(ts)
  {
    assert ([t] + ts)[0] == t && ([t] + ts)[1..] == ts;
    forall i | 0 <= i < |ts| && ts[i].Run?
      ensures ts[i].bits % VALUE_SIZE == 0
    {
      assert ([t] + ts)[i + 1] == ts[i];
    }
  }

  lemma SplitAt(plain: seq<Word>, p: nat, a: seq<Word>, b: seq<Word>)
    requires p <= |plain| && plain[p..] == a + b
    ensures p + |a| <= |plain| && plain[p + |a|..] == b
    ensures forall k :: p <= k < p + |a| ==> plain[k] == a[k - p]
  {
    assert plain[p..][|a|..] == b;
    forall k | p <= k < p + |a|
      ensures plain[k] == a[k - p]
    {
      assert plain[k] == plain[p..][k - p];
    }
  }

  /** The words from `i` on stand for the plain words from `p` on. */
  ghost predicate StandFor(bs: seq<Word>, i: nat, plain: seq<Word>, p: nat) {
    i <= |bs| && p <= |plain| && plain[p..] == Decode(bs[i..]) && Aligned(Parse(bs[i..]))
  }

  lemma {:induction false} DecodedRun(plain: seq<Word>, bs: seq<Word>, i: nat, p: nat, v: bool, e: nat, bits: nat)
    requires i < |bs| && IsRunWord(bs[i]) && StandFor(bs, i, plain, p)
    requires v == RunValue(bs[i]) && e == RunEnd(bs, i + 1, v) && bits == RunBits(bs, i, e)
    ensures bits % VALUE_SIZE == 0 && RunIn(plain, p, p + bits / VALUE_SIZE, v)
    ensures StandFor(bs, e, plain, p + bits / VALUE_SIZE)
  {
    var t := Run(v, bits);
    ParseRunAt(bs, i);
    FirstToken(t, Parse(bs[e..]));
    assert [t][0] == t;
    SplitAt(plain, p, Expand(t), Decode(bs[e..]));
  }

  lemma {:induction false} DecodedLiteral(plain: seq<Word>, bs: seq<Word>, i: nat, p: nat)
    requires i < |bs| && !IsRunWord(bs[i]) && StandFor(bs, i, plain, p)
    ensures p < |plain| && plain[p] == Payload(bs[i])
    ensures StandFor(bs, i + 1, plain, p + 1)
  {
    ParseLiteralAt(bs, i);
    FirstToken(Literal(Payload(bs[i])), Parse(bs[i + 1..]));
    SplitAt(plain, p, [Payload(bs[i])], Decode(bs[i + 1..]));
  }

  /** Readers that go word by word see what the decoder gives. */
  lemma {:induction false} ReaderSeesDecoded(plain: seq<Word>, bs: seq<Word>, i: nat, p: nat)
    requires StandFor(bs, i, plain, p)
    ensures ReaderAt(plain, bs, i, p)
    decreases |bs| - i
  {
    if i < |bs| && IsRunWord(bs[i]) {
      var v := RunValue(bs[i]);
      var e := RunEnd(bs, i + 1, v);
      DecodedRun(plain, bs, i, p, v, e, RunBits(bs, i, e));
      ReaderSeesDecoded(plain, bs, e, p + RunBits(bs, i, e) / VALUE_SIZE);
    } else if i < |bs| {
      DecodedLiteral(plain, bs, i, p);
      ReaderSeesDecoded(plain, bs, i + 1, p + 1);
    }
  }

  lemma AndFull(n: nat, w: nat)
    requires w < Pow2(n)
    ensures And(w, Pow2(n) - 1) == w
  {
    AndMask(n, w);
    UniqueRemainder(w, Pow2(n), 0, w);
  }

  lemma {:induction false} OrFull(n: nat, w: nat, m: nat)
    requires w < Pow2(n) && m == Pow2(n) - 1
    ensures Or(w, m) == m
  {
    OrBound(n, w, m);
  }

  lemma {:induction false} OrZero(w: nat)
    ensures Or(w, 0) == w
  {
    if w > 0 {
      OrZero(w / 2);
    }
  }

  // ---------------------------------------------------------------- combining two bitmaps

  /** `now` holds the result in its first `p` words and the left operand in the others. */
  ghost predicate Combined(f: (Word, Word) -> Word, xs: seq<Word>, ys: seq<Word>, now: seq<Word>, p: nat) {
    && |xs| == |ys| == |now| && p <= |xs|
    && (forall k :: 0 <= k < p ==> now[k] == f(xs[k], ys[k]))
    && (forall k :: p <= k < |xs| ==> now[k] == xs[k])
  }

  lemma CombinedAll(op: Operation, xs: seq<Word>, ys: seq<Word>, now: seq<Word>)
    requires op.Lawful() && Combined(op.word, xs, ys, now, |xs|) && Clean(xs) && Clean(ys)
    ensures now == Zip(op.word, xs, ys) && Clean(now)
  {
  }

  lemma CombinedRun(
      op: Operation, xs: seq<Word>, ys: seq<Word>, was: seq<Word>, now: seq<Word>, p: nat, n: nat, v: bool)
    requires op.Lawful() && Combined(op.word, xs, ys, was, p) && p + n <= |xs| && Clean(xs)
    requires |now| == |was| && forall k :: 0 <= k < |now| ==>
      now[k] == if v == op.absorbing && p <= k < p + n then Uniform(v) else was[k]
    requires RunIn(ys, p, p + n, v)
    ensures Combined(op.word, xs, ys, now, p + n)
  {
  }

  /** A bitwise operation on words, the same operation on four words at once, and the value
      that overwrites the left operand. */
  datatype Operation = Operation(word: (Word, Word) -> Word, wide: (nat, nat) -> nat, absorbing: bool)
  {
    ghost predicate Lawful() {
      && (forall w: Word, u: Word :: w < BASE && u == Uniform(absorbing) ==> word(w, u) == u)
      && (forall w: Word, u: Word :: w < BASE && u == Uniform(!absorbing) ==> word(w, u) == w)
      && (forall w: Word, u: Word :: w == Uniform(absorbing) == 0 ==> word(w, u) == 0)
      && (forall a: Word, b: Word :: a < BASE && b < BASE ==> word(a, b) < BASE)
      && (forall a: seq<Word>, b: seq<Word> {:trigger wide(Pack(a), Pack(b))} :: |a| == |b| ==>
           wide(Pack(a), Pack(b)) == Pack(Zip(word, a, b)))
    }
  }

  const AND := Operation(AndWord, And, false)
  const OR := Operation(OrWord, Or, true)

  lemma AndIsLawful()
    ensures AND.Lawful()
  {
    Pow2Values();
    forall w: Word | w < BASE
      ensures AndWord(w, FULL) == w && AndWord(w, 0) == 0
    {
      AndFull(14, w);
    }
    forall a: seq<Word>, b: seq<Word> | |a| == |b|
      ensures And(Pack(a), Pack(b)) == Pack(Zip(AndWord, a, b))
    {
      PackAnd(a, b);
    }
  }

  lemma OrIsLawful()
    ensures OR.Lawful()
  {
    Pow2Values();
    forall w: Word | w < BASE
      ensures OrWord(w, FULL) == FULL && OrWord(w, 0) == w
    {
      OrFull(14, w, FULL);
      OrZero(w);
    }
    forall a: Word, b: Word | a < BASE && b < BASE
      ensures OrWord(a, b) < BASE
    {
      OrBound(14, a, b);
    }
    forall a: seq<Word>, b: seq<Word> | |a| == |b|
      ensures Or(Pack(a), Pack(b)) == Pack(Zip(OrWord, a, b))
    {
      PackOr(a, b);
    }
  }

  /** One turn of the 64-bit loops. */
  method CombineChunk(op: Operation, a: array<Word>, b: array<Word>, at: nat)
    requires op.Lawful() && at + WORDS_PER_CHUNK <= a.Length && at + WORDS_PER_CHUNK <= b.Length
    modifies a
    ensures forall k :: 0 <= k < a.Length && !(at <= k < at + WORDS_PER_CHUNK) ==> a[k] == old(a[k])
    ensures forall k :: at <= k < at + WORDS_PER_CHUNK ==> a[k] == op.word(old(a[k]), old(b[k]))
  {
    var x, y := a[at..at + WORDS_PER_CHUNK], b[at..at + WORDS_PER_CHUNK];
    Store(a, at, op.wide(Pack(x), Pack(y)), Zip(op.word, x, y));
  }

  /** Writes a 64-bit number over four words. */
  method Store(a: array<Word>, at: nat, x: nat, ghost ws: seq<Word>)
    requires at + WORDS_PER_CHUNK <= a.Length && |ws| == WORDS_PER_CHUNK && x == Pack(ws)
    modifies a
    ensures forall k :: 0 <= k < a.Length ==> a[k] == if at <= k < at + WORDS_PER_CHUNK then ws[k - at] else old(a[k])
  {
    UnpackPack(ws);
    var parts := Unpack(WORDS_PER_CHUNK, x);
    forall k | 0 <= k < WORDS_PER_CHUNK {
      a[at + k] := parts[k];
    }
  }

  /** Range `set`; its two alignment assertions are the preconditions. */
  method SetRange(data: array<Word>, from: nat, count: nat, v: bool)
    requires from % VALUE_SIZE == 0 && (from + count) % VALUE_SIZE == 0
    requires (from + count) / VALUE_SIZE <= data.Length
    modifies data
    ensures forall k :: 0 <= k < data.Length ==>
      data[k] == if from <= VALUE_SIZE * k < from + count then Uniform(v) else old(data[k])
  {
    if count == 0 {
      return;
    }
    var first, last := from / VALUE_SIZE, (from + count) / VALUE_SIZE;
    var i := first;
    while i < last
      invariant first <= i <= last
      invariant forall k :: first <= k < i ==> data[k] == Uniform(v)
      invariant forall k :: 0 <= k < data.Length && !(first <= k < i) ==> data[k] == old(data[k])
    {
      data[i] := if v then FULL else 0;
      i := i + 1;
    }
  }

  /** A run of `n` words in the right operand meets the left one. */
  method CombineRun(op: Operation, data: array<Word>, p: nat, n: nat, v: bool, ghost xs: seq<Word>, ghost ys: seq<Word>)
    requires op.Lawful() && Clean(xs) && Combined(op.word, xs, ys, data[..], p)
    requires p + n <= |xs| && RunIn(ys, p, p + n, v)
    modifies data
    ensures Combined(op.word, xs, ys, data[..], p + n)
  {
    ghost var was := data[..];
    if v == op.absorbing {
      SetRange(data, VALUE_SIZE * p, VALUE_SIZE * n, v);
    }
    CombinedRun(op, xs, ys, was, data[..], p, n, v);
  }

  method CombineLiteral(op: Operation, data: array<Word>, p: nat, w: Word, ghost xs: seq<Word>, ghost ys: seq<Word>)
    requires Combined(op.word, xs, ys, data[..], p) && p < |ys| && ys[p] == w
    modifies data
    ensures Combined(op.word, xs, ys, data[..], p + 1)
  {
    data[p] := op.word(data[p], w);
  }

  class Bitmap {
    var compressed: bool
    var size: nat
    var data: array<Word>

    ghost predicate Valid()
      reads this, data
    {
      && Countable(WordCount(size))
      && if compressed then
           Aligned(Parse(data[..])) && |Decode(data[..])| == WordCount(size)
         else
           data.Length == WordCount(size) && Clean(data[..])
    }

    /** The words that the bitmap stands for. */
    ghost function Plain(): seq<Word>
      requires Valid()
      reads this, data
    {
      if compressed then Decode(data[..]) else data[..]
    }

    constructor Zero(size: nat)
      requires Countable(WordCount(size))
      ensures Valid() && !compressed && this.size == size && fresh(data)
      ensures data[..] == Repeat(false, WordCount(size))
    {
      this.compressed := false;
      this.size := size;
      this.data := new Word[WordCount(size)](_ => 0);
    }

    constructor FromWords(compressed: bool, size: nat, words: seq<Word>)
      ensures this.compressed == compressed && this.size == size && fresh(data) && data[..] == words
    {
      this.compressed := compressed;
      this.size := size;
      this.data := new Word[|words|](i requires 0 <= i < |words| => words[i]);
      new;
      assert data[..] == words;
    }

    /** Range `get` for set bits, the only use the bitmap makes of it. */
    method AnyInRange(from: nat, count: nat) returns (any: bool)
      requires from % VALUE_SIZE == 0 && (from + count) % VALUE_SIZE == 0
      requires (from + count) / VALUE_SIZE <= data.Length
      ensures any <==> exists k :: from / VALUE_SIZE <= k < (from + count) / VALUE_SIZE && Payload(data[k]) != 0
    {
      if count == 0 {
        return false;
      }
      var i, last := from / VALUE_SIZE, (from + count) / VALUE_SIZE;
      while i < last
        invariant from / VALUE_SIZE <= i <= last
        invariant forall k :: from / VALUE_SIZE <= k < i ==> Payload(data[k]) == 0
      {
        if Payload(data[i]) != 0 {
          return true;
        }
        i := i + 1;
      }
      return false;
    }

    /** Reads the run that starts at word `i`, as every reader of a compressed bitmap does. */
    method CountRun(i: nat) returns (v: bool, count: nat, next: nat)
      requires i < data.Length && IsRunWord(data[i])
      ensures v == RunValue(data[i])
      ensures i < next <= data.Length && next == RunEnd(data[..], i + 1, v)
      ensures count == RunBits(data[..], i, next)
    {
      v := RunValue(data[i]);
      count := Payload(data[i]);
      var scale := BASE;
      next := i + 1;
      while next < data.Length && SameRun(data[next], v)
        invariant i < next <= data.Length
        invariant RunEnd(data[..], next, v) == RunEnd(data[..], i + 1, v)
        invariant scale == Power(next - i)
        invariant count == Value(data[i..next])
      {
        ValueAppend(data[i..next], data[next]);
        assert data[i..next] + [data[next]] == data[i..next + 1];
        count := count + Payload(data[next]) * scale;
        scale := scale * BASE;
        next := next + 1;
      }
      count := count % TWO_32;
      assert data[..][i..next] == data[i..next];
    }

    /** A reader that has seen `p` plain words reads a run. */
    method ReadRun(i: nat, ghost plain: seq<Word>, ghost p: nat) returns (v: bool, count: nat, next: nat)
      requires i < data.Length && IsRunWord(data[i]) && ReaderAt(plain, data[..], i, p)
      ensures i < next <= data.Length && count % VALUE_SIZE == 0
      ensures ReaderAt(plain, data[..], next, p + count / VALUE_SIZE)
      ensures RunIn(plain, p, p + count / VALUE_SIZE, v)
    {
      v, count, next := CountRun(i);
    }

    method Copy() returns (b: Bitmap)
      ensures fresh(b) && fresh(b.data)
      ensures b.compressed == compressed && b.size == size && b.data[..] == data[..]
    {
      b := new Bitmap.FromWords(compressed, size, data[..]);
    }

    method Compress() returns (b: Bitmap)
      requires Valid()
      ensures fresh(b) && fresh(b.data) && b.Valid() && b.compressed && b.size == size
      ensures b.Plain() == Plain()
      ensures b.data[..] == if compressed then data[..] else Encode(data[..])
      ensures !compressed ==> b.data.Length <= data.Length
    {
      if compressed {
        b := Copy();
        return;
      }
      var buffer := new Word[data.Length](_ => 0);
      var end := CompressTo(buffer);
      CompressedIsAligned(data[..]);
      RoundTrip(data[..]);
      b := new Bitmap.FromWords(true, size, buffer[..end]);
    }

    /** A buffer as long as the plain words is enough. */
    method CompressTo(buffer: array<Word>) returns (end: nat)
      requires buffer != data && buffer.Length == data.Length
      modifies buffer
      ensures end <= buffer.Length && buffer[..end] == Encode(data[..])
    {
      var s;
      s, end := CompressLoop(buffer);
      FlushFits(s.value, s.pending);
      LoopWritesCode(data[..]);
      end := WriteRun(buffer, end, s.value, s.pending);
    }

    method CompressLoop(buffer: array<Word>) returns (s: Counter, end: nat)
      requires buffer != data && buffer.Length == data.Length
      modifies buffer
      ensures end + s.pending <= buffer.Length && s == CountedUpTo(data[..], data.Length)
      ensures buffer[..end] == WrittenUpTo(data[..], data.Length, Written)
    {
      ghost var ws := data[..];
      var i := 0;
      s, end := Counter(false, 0), 0;
      while i < data.Length
        invariant 0 <= i <= data.Length && end + s.pending <= i
        invariant data[..] == ws
        invariant s == CountedUpTo(ws, i) && buffer[..end] == WrittenUpTo(ws, i, Written)
      {
        s, end := CompressWord(buffer, end, s, data[i]);
        i := i + 1;
      }
    }

    lemma {:induction false} ReaderAtStart()
      requires Valid() && compressed
      ensures ReaderAt(Plain(), data[..], 0, 0) && Clean(Plain())
    {
      var bs := data[..];
      assert bs[0..] == bs && Plain()[0..] == Plain();
      ReaderSeesDecoded(Plain(), bs, 0, 0);
      DecodeIsClean(bs);
    }

    method Uncompress() returns (b: Bitmap)
      requires Valid()
      ensures fresh(b) && fresh(b.data) && b.Valid() && !b.compressed && b.size == size
      ensures b.Plain() == Plain()
    {
      if !compressed {
        b := Copy();
        return;
      }
      b := new Bitmap.Zero(size);
      ReaderAtStart();
      UncompressTo(b.data, Plain());
    }

    method UncompressTo(target: array<Word>, ghost plain: seq<Word>)
      requires target != data && target.Length == |plain| && ReaderAt(plain, data[..], 0, 0)
      modifies target
      ensures target[..] == plain
    {
      ghost var bs, p: nat := data[..], 0;
      var i, position := 0, 0;
      while i < data.Length
        invariant position == VALUE_SIZE * p && data[..] == bs && i <= |bs|
        invariant ReaderAt(plain, bs, i, p)
        invariant forall k :: 0 <= k < p ==> target[k] == plain[k]
      {
        i, position, p := UncompressToken(target, i, position, plain, p);
      }
    }

    /** One turn of that loop. */
    method UncompressToken(target: array<Word>, i: nat, position: nat, ghost plain: seq<Word>, ghost p: nat)
      returns (i': nat, position': nat, ghost p': nat)
      requires target != data && target.Length == |plain| && i < data.Length
      requires position == VALUE_SIZE * p && ReaderAt(plain, data[..], i, p)
      requires forall k :: 0 <= k < p ==> target[k] == plain[k]
      modifies target
      ensures i < i' <= data.Length && position' == VALUE_SIZE * p' && ReaderAt(plain, data[..], i', p')
      ensures forall k :: 0 <= k < p' ==> target[k] == plain[k]
    {
      if IsRunWord(data[i]) {
        var v, count;
        v, count, i' := ReadRun(i, plain, p);
        SetRange(target, position, count, v);
        position', p' := position + count, p + count / VALUE_SIZE;
      } else {
        target[position / VALUE_SIZE] := Payload(data[i]);
        i', position', p' := i + 1, position + VALUE_SIZE, p + 1;
      }
    }

    /** `operator&=`; the status stands for the exceptions. */
    method AndAssign(b: Bitmap) returns (status: Status)
      requires Valid() && b.Valid() && (b != this ==> b.data != data)
      modifies data
      ensures Valid()
      ensures status == if size != b.size then SizeMismatch else if compressed then Unsupported else Done
      ensures Plain() == if status == Done then Zip(AndWord, old(Plain()), old(b.Plain())) else old(Plain())
    {
      AndIsLawful();
      status := Combine(AND, b);
    }

    /** `operator|=`. */
    method OrAssign(b: Bitmap) returns (status: Status)
      requires Valid() && b.Valid() && (b != this ==> b.data != data)
      modifies data
      ensures Valid()
      ensures status == if size != b.size then SizeMismatch else if compressed then Unsupported else Done
      ensures Plain() == if status == Done then Zip(OrWord, old(Plain()), old(b.Plain())) else old(Plain())
    {
      OrIsLawful();
      status := Combine(OR, b);
    }

    /** The branches that the two operators share. */
    method Combine(op: Operation, b: Bitmap) returns (status: Status)
      requires op.Lawful() && Valid() && b.Valid() && (b != this ==> b.data != data)
      modifies data
      ensures Valid()
      ensures status == if size != b.size then SizeMismatch else if compressed then Unsupported else Done
      ensures Plain() == if status == Done then Zip(op.word, old(Plain()), old(b.Plain())) else old(Plain())
    {
      if size != b.size {
        return SizeMismatch;
      }
      if compressed {
        return Unsupported;
      }
      if b.compressed {
        b.ReaderAtStart();
        CombineCompressed(op, b, b.Plain());
      } else {
        CombinePlain(op, b);
      }
      return Done;
    }

    method CombinePlain(op: Operation, b: Bitmap)
      requires op.Lawful() && data.Length == b.data.Length == WordCount(size)
      requires Clean(data[..]) && Clean(b.data[..])
      modifies data
      ensures data[..] == Zip(op.word, old(data[..]), old(b.data[..])) && Clean(data[..])
    {
      ghost var xs, ys := data[..], b.data[..];
      var chunks, i := size / BITS_PER_CHUNK, 0;
      while i < chunks
        invariant 0 <= i <= chunks
        invariant Combined(op.word, xs, ys, data[..], 4 * i)
        invariant forall k :: 4 * i <= k < |ys| ==> b.data[k] == ys[k]
      {
        CombineChunk(op, data, b.data, i * WORDS_PER_CHUNK);
        i := i + 1;
      }
      i := chunks * WORDS_PER_CHUNK;
      while i < data.Length
        invariant 0 <= i <= data.Length
        invariant Combined(op.word, xs, ys, data[..], i)
        invariant forall k :: i <= k < |ys| ==> b.data[k] == ys[k]
      {
        data[i] := op.word(data[i], b.data[i]);
        i := i + 1;
      }
      CombinedAll(op, xs, ys, data[..]);
    }

    method CombineCompressed(op: Operation, b: Bitmap, ghost ys: seq<Word>)
      requires op.Lawful() && data.Length == |ys| && Clean(data[..]) && Clean(ys) && b.data != data
      requires ReaderAt(ys, b.data[..], 0, 0)
      modifies data
      ensures data[..] == Zip(op.word, old(data[..]), ys) && Clean(data[..])
    {
      ghost var xs := data[..];
      var i, p := 0, 0;
      while i < b.data.Length
        invariant 0 <= i <= b.data.Length && 0 <= p
        invariant ReaderAt(ys, b.data[..], i, p) && Combined(op.word, xs, ys, data[..], p)
      {
        i, p := CombineToken(op, b, i, p, xs, ys);
      }
      CombinedAll(op, xs, ys, data[..]);
    }

    /** One turn of that loop; `p` is the bit position divided by the size of a word. */
    method CombineToken(op: Operation, b: Bitmap, i: nat, p: nat, ghost xs: seq<Word>, ghost ys: seq<Word>)
      returns (next: nat, p': nat)
      requires op.Lawful() && Clean(xs) && b.data != data && i < b.data.Length
      requires ReaderAt(ys, b.data[..], i, p) && Combined(op.word, xs, ys, data[..], p)
      modifies data
      ensures i < next <= b.data.Length
      ensures ReaderAt(ys, b.data[..], next, p') && Combined(op.word, xs, ys, data[..], p')
    {
      if IsRunWord(b.data[i]) {
        var v, count;
        v, count, next := b.ReadRun(i, ys, p);
        CombineRun(op, data, p, count / VALUE_SIZE, v, xs, ys);
        p' := p + count / VALUE_SIZE;
      } else {
        CombineLiteral(op, data, p, Payload(b.data[i]), xs, ys);
        next, p' := i + 1, p + 1;
      }
    }

    /** `operator~`. On a plain bitmap it sets the two mark bits of every word. */
    method Flip()
      requires Valid()
      modifies data
      ensures compressed ==> Valid() && Clean(old(Plain())) && Plain() == ComplementAll(old(Plain()))
      ensures compressed ==> data[..] == FlipAll(old(data[..]))
      ensures !compressed ==> forall k :: 0 <= k < data.Length ==> data[k] == 0xFFFF - old(data[k])
    {
      ghost var was := data[..];
      var i := 0;
      while i < data.Length
        invariant 0 <= i <= data.Length
        invariant forall k :: 0 <= k < i ==> data[k] == if compressed then FlipCompressed(was[k]) else 0xFFFF - was[k]
        invariant forall k :: i <= k < data.Length ==> data[k] == was[k]
      {
        data[i] := if compressed then FlipCompressed(data[i]) else 0xFFFF - data[i];
        i := i + 1;
      }
      if compressed {
        assert data[..] == FlipAll(was);
        FlipDecodesToComplement(was);
        FlipKeepsAlignment(was);
      }
    }

    /** `cross`: do the two bitmaps share a bit? It answers no when the left one is compressed.
        A plain right operand may be longer; elsewhere the source reads past the end. */
    method Cross(b: Bitmap) returns (shared: bool)
      requires Valid() && b.Valid()
      requires compressed || size == b.size || (!b.compressed && data.Length <= b.data.Length)
      ensures compressed ==> !shared
      ensures !compressed ==>
        |Plain()| <= |b.Plain()| && (shared <==> Meet(AndWord, Plain(), b.Plain()[..|Plain()|]))
    {
      AndIsLawful();
      if compressed {
        return false;
      }
      if b.compressed {
        assert b.Plain()[..|b.Plain()|] == b.Plain();
        b.ReaderAtStart();
        shared := CrossCompressed(AND, b, b.Plain());
      } else {
        shared := CrossPlain(AND, b);
      }
    }

    method CrossPlain(op: Operation, b: Bitmap) returns (shared: bool)
      requires op.Lawful() && !op.absorbing && data.Length == WordCount(size) <= b.data.Length
      ensures shared <==> Meet(op.word, data[..], b.data[..data.Length])
    {
      ghost var xs, ys := data[..], b.data[..data.Length];
      var chunks, i := size / BITS_PER_CHUNK, 0;
      while i < chunks
        invariant 0 <= i <= chunks
        invariant MeetNot(op.word, xs, ys, 4 * i)
      {
        var at := i * WORDS_PER_CHUNK;
        var x, y := data[at..at + WORDS_PER_CHUNK], b.data[at..at + WORDS_PER_CHUNK];
        assert x == xs[at..at + WORDS_PER_CHUNK];
        SliceOfPrefix(b.data[..], data.Length, at, at + WORDS_PER_CHUNK);
        assert b.data[..][..data.Length] == ys && b.data[..][at..at + WORDS_PER_CHUNK] == y;
        ChunkMeets(op, xs, ys, at);
        if Pack(x) != 0 && op.wide(Pack(x), Pack(y)) != 0 {
          return true;
        }
        i := i + 1;
      }
      i := chunks * WORDS_PER_CHUNK;
      while i < data.Length
        invariant 0 <= i <= data.Length
        invariant MeetNot(op.word, xs, ys, i)
      {
        if op.word(data[i], b.data[i]) != 0 {
          assert op.word(xs[i], ys[i]) != 0;
          return true;
        }
        i := i + 1;
      }
      return false;
    }

    /** A run of `n` words in the right operand meets the left one. */
    method CrossRun(op: Operation, p: nat, n: nat, v: bool, ghost ys: seq<Word>) returns (shared: bool)
      requires op.Lawful() && !op.absorbing && data.Length == |ys| && Clean(data[..])
      requires RunIn(ys, p, p + n, v) && MeetNot(op.word, data[..], ys, p)
      ensures if shared then Meet(op.word, data[..], ys) else MeetNot(op.word, data[..], ys, p + n)
    {
      RunMeets(op, data[..], ys, p, p + n, v);
      shared := false;
      if v {
        shared := AnyInRange(VALUE_SIZE * p, VALUE_SIZE * n);
      }
      if shared {
        ghost var k :| p <= k < p + n && Payload(data[k]) != 0;
        assert op.word(data[..][k], ys[k]) != 0;
      }
    }

    method CrossCompressed(op: Operation, b: Bitmap, ghost ys: seq<Word>) returns (shared: bool)
      requires op.Lawful() && !op.absorbing && data.Length == |ys| && Clean(data[..])
      requires ReaderAt(ys, b.data[..], 0, 0)
      ensures shared <==> Meet(op.word, data[..], ys)
    {
      var i, p := 0, 0;
      while i < b.data.Length
        invariant 0 <= i <= b.data.Length && 0 <= p
        invariant ReaderAt(ys, b.data[..], i, p) && MeetNot(op.word, data[..], ys, p)
      {
        shared, i, p := CrossToken(op, b, i, p, ys);
        if shared {
          return;
        }
      }
      return false;
    }

    /** One turn of that loop. */
    method CrossToken(op: Operation, b: Bitmap, i: nat, p: nat, ghost ys: seq<Word>)
      returns (shared: bool, next: nat, p': nat)
      requires op.Lawful() && !op.absorbing && data.Length == |ys| && Clean(data[..]) && i < b.data.Length
      requires ReaderAt(ys, b.data[..], i, p) && MeetNot(op.word, data[..], ys, p)
      ensures i < next <= b.data.Length && ReaderAt(ys, b.data[..], next, p')
      ensures if shared then Meet(op.word, data[..], ys) else MeetNot(op.word, data[..], ys, p')
    {
      if IsRunWord(b.data[i]) {
        var v, count;
        v, count, next := b.ReadRun(i, ys, p);
        shared := CrossRun(op, p, count / VALUE_SIZE, v, ys);
        p' := p + count / VALUE_SIZE;
      } else {
        shared := op.word(data[p], Payload(b.data[i])) != 0;
        assert shared ==> op.word(data[..][p], ys[p]) != 0;
        next, p' := i + 1, p + 1;
      }
    }

    /** Single-bit `get`. */
    method Get(at: nat) returns (present: bool)
      requires at / VALUE_SIZE < data.Length
      ensures present == IsSet(data[..], at)
    {
      TestBit(data[at / VALUE_SIZE], at % VALUE_SIZE);
      present := And(data[at / VALUE_SIZE], Pow2(at % VALUE_SIZE)) != 0;
    }

    /** Single-bit `set` changes that bit and no other; clean words stay clean. */
    method Set(at: nat, v: bool)
      requires at / VALUE_SIZE < data.Length
      modifies data
      ensures old(Valid()) && !compressed ==> Valid()
      ensures forall w, k :: 0 <= w < data.Length && 0 <= k < 16 ==>
        Bit(data[w], k) == if w == at / VALUE_SIZE && k == at % VALUE_SIZE then v else Bit(old(data[w]), k)
      ensures forall k :: 0 <= k < VALUE_SIZE * data.Length ==>
        IsSet(data[..], k) == if k == at then v else old(IsSet(data[..], k))
    {
      var i, j := at / VALUE_SIZE, at % VALUE_SIZE;
      ghost var w := data[i];
      if w < BASE {
        WithBitIsClean(w, j, v);
      }
      data[i] := WithBit(data[i], j, v);
      forall k | 0 <= k < 16
        ensures Bit(data[i], k) == if k == j then v else Bit(w, k)
      {
        WithBitAt(w, j, v, k);
      }
    }
  }

  function Power(n: nat): nat {
    if n == 0 then 1 else Power(n - 1) * BASE
  }

  lemma {:induction false} ValueAppend(ws: seq<Word>, w: Word)
    ensures Value(ws + [w]) == Value(ws) + Payload(w) * Power(|ws|)
  {
    if ws == [] {
      assert ws + [w] == [w];
      assert Value([w]) == Payload(w);
    } else {
      ValueAppend(ws[1..], w);
      assert (ws + [w])[1..] == ws[1..] + [w];
      var p := Payload(w);
      assert BASE * (p * Power(|ws| - 1)) == p * (Power(|ws| - 1) * BASE);
    }
  }

  lemma {:induction false} TokensAreAligned(ws: seq<Word>, v: bool, pending: nat)
    ensures Aligned(Tokens(ws, v, pending))
    decreases |ws|
  {
    if ws != [] {
      TokensAreAligned(ws[1..], v, pending + 1);
      TokensAreAligned(ws[1..], !v, 1);
      TokensAreAligned(ws[1..], v, 0);
    }
  }

  /** The alignment assertions of the range operations hold of every run that was compressed. */
  lemma {:induction false} CompressedIsAligned(ws: seq<Word>)
    requires Clean(ws) && Countable(|ws|)
    ensures Aligned(Parse(Encode(ws)))
  {
    TokensAreSeparated(ws, false, 0);
    ParseEmit(Tokens(ws, false, 0));
    TokensAreAligned(ws, false, 0);
  }

  // ---------------------------------------------------------------- complement, intersection

  lemma {:induction false} FlipKeepsAlignment(ws: seq<Word>)
    requires Aligned(Parse(ws))
    ensures Aligned(Parse(FlipAll(ws)))
    decreases |ws|
  {
    if ws != [] {
      var v, fs := RunValue(ws[0]), FlipAll(ws);
      FlipWord(ws[0], v);
      if IsRunWord(ws[0]) {
        var n := RunLength(ws, v);
        FlipKeepsRunLength(ws, v);
        FlipKeepsValue(ws[..n]);
        assert fs[..n] == FlipAll(ws[..n]) && fs[n..] == FlipAll(ws[n..]);
        FirstToken(Run(v, Count32(ws[..n])), Parse(ws[n..]));
        assert [Run(v, Count32(ws[..n]))][0].bits % VALUE_SIZE == 0;
        FlipKeepsAlignment(ws[n..]);
      } else {
        assert fs[1..] == FlipAll(ws[1..]);
        FirstToken(Literal(Payload(ws[0])), Parse(ws[1..]));
        FlipKeepsAlignment(ws[1..]);
      }
    }
  }

  /** Some word of the combination is not zero. */
  predicate Meet(f: (Word, Word) -> Word, a: seq<Word>, b: seq<Word>)
    requires |a| == |b|
  {
    exists k :: 0 <= k < |a| && f(a[k], b[k]) != 0
  }

  predicate MeetNot(f: (Word, Word) -> Word, a: seq<Word>, b: seq<Word>, n: nat)
    requires |a| == |b|
  {
    n <= |a| && forall k :: 0 <= k < n ==> f(a[k], b[k]) == 0
  }

  lemma ChunkMeets(op: Operation, a: seq<Word>, b: seq<Word>, at: nat)
    requires op.Lawful() && !op.absorbing && |a| == |b| && at + WORDS_PER_CHUNK <= |a|
    requires MeetNot(op.word, a, b, at)
    ensures var x, y := a[at..at + WORDS_PER_CHUNK], b[at..at + WORDS_PER_CHUNK];
      if Pack(x) == 0 || op.wide(Pack(x), Pack(y)) == 0 then MeetNot(op.word, a, b, at + WORDS_PER_CHUNK)
      else Meet(op.word, a, b)
  {
    var x, y := a[at..at + WORDS_PER_CHUNK], b[at..at + WORDS_PER_CHUNK];
    var z := Zip(op.word, x, y);
    assert op.wide(Pack(x), Pack(y)) == Pack(z);
    PackIsZero(x);
    PackIsZero(z);
    if AllZero(x) || AllZero(z) {
      ChunkIsZero(op, a, b, at, x, y);
    } else {
      var k :| 0 <= k < |z| && z[k] != 0;
      assert op.word(a[at + k], b[at + k]) != 0;
    }
  }

  lemma ChunkIsZero(
      op: Operation, a: seq<Word>, b: seq<Word>, at: nat, x: seq<Word>, y: seq<Word>)
    requires op.Lawful() && !op.absorbing && |a| == |b| && at + WORDS_PER_CHUNK <= |a|
    requires MeetNot(op.word, a, b, at)
    requires x == a[at..at + WORDS_PER_CHUNK] && y == b[at..at + WORDS_PER_CHUNK]
    requires AllZero(x) || AllZero(Zip(op.word, x, y))
    ensures MeetNot(op.word, a, b, at + WORDS_PER_CHUNK)
  {
    forall k | at <= k < at + WORDS_PER_CHUNK
      ensures op.word(a[k], b[k]) == 0
    {
      assert a[k] == x[k - at] && b[k] == y[k - at];
      assert Zip(op.word, x, y)[k - at] == op.word(x[k - at], y[k - at]);
    }
  }

  lemma RunMeets(op: Operation, a: seq<Word>, b: seq<Word>, p: nat, q: nat, v: bool)
    requires op.Lawful() && !op.absorbing && |a| == |b| && RunIn(b, p, q, v) && Clean(a)
    ensures forall k :: p <= k < q ==> op.word(a[k], b[k]) == if v then a[k] else 0
  {
  }

  // ---------------------------------------------------------------- single bits

  predicate IsSet(ws: seq<Word>, at: nat)
    requires at / VALUE_SIZE < |ws|
  {
    Bit(ws[at / VALUE_SIZE], at % VALUE_SIZE)
  }

  lemma {:induction false} TestBit(w: nat, i: nat)
    ensures And(w, Pow2(i)) != 0 <==> Bit(w, i)
  {
    var x := And(w, Pow2(i));
    forall k: nat
      ensures Bit(x, k) <==> Bit(w, k) && k == i
    {
      BitAnd(w, Pow2(i), k);
      BitPow2(i, k);
    }
    if Bit(x, i) {
      BitZero(i);
    } else {
      NoBitsIsZero(i + 1, x);
    }
  }

  lemma {:induction false} NoBitsIsZero(n: nat, x: nat)
    requires x < Pow2(n) && forall k :: 0 <= k < n ==> !Bit(x, k)
    ensures x == 0
  {
    if n > 0 {
      forall k | 0 <= k < n - 1
        ensures !Bit(x / 2, k)
      {
        assert !Bit(x, k + 1);
      }
      NoBitsIsZero(n - 1, x / 2);
      assert !Bit(x, 0);
    }
  }

  lemma {:induction false} Pow2Bound(j: nat)
    requires j < VALUE_SIZE
    ensures Pow2(j) < BASE
  {
    Pow2Values();
    Pow2Order(j, 14);
  }

  /** What single-bit `set` makes of a word. */
  function WithBit(w: Word, j: nat, v: bool): Word
    requires j < VALUE_SIZE
  {
    Pow2Bound(j);
    if v then OrWord(w, Pow2(j)) else And(w, 0xFFFF - Pow2(j))
  }

  lemma MaskBit(j: nat, i: nat)
    requires j < VALUE_SIZE && i < 16
    ensures Pow2(j) < BASE && Bit(0xFFFF - Pow2(j), i) == (i != j)
  {
    Pow2Bound(j);
    Pow2Values();
    BitPow2(j, i);
    BitFlip(16, Pow2(j), i);
  }

  lemma {:induction false} WithBitAt(w: Word, j: nat, v: bool, i: nat)
    requires j < VALUE_SIZE && i < 16
    ensures Bit(WithBit(w, j, v), i) == if i == j then v else Bit(w, i)
  {
    Pow2Bound(j);
    if v {
      BitOr(w, Pow2(j), i);
      BitPow2(j, i);
    } else {
      BitAnd(w, 0xFFFF - Pow2(j), i);
      MaskBit(j, i);
    }
  }

  lemma WithBitIsClean(w: Word, j: nat, v: bool)
    requires w < BASE && j < VALUE_SIZE
    ensures WithBit(w, j, v) < BASE
  {
    Pow2Bound(j);
    Pow2Values();
    OrBound(14, w, Pow2(j));
  }
}

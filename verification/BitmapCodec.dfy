/**
 The run-length code of compressed bitmaps (Sylar/DataStructure/bitmap.h and bitmap.cc).

 A word has 16 bits, of which 14 hold values. The top bit marks a run word; the next one is
 the value repeated; the rest is one base-2^14 digit of the number of bits in the run. The
 digits of a run stand in consecutive words, lowest first, and nothing but the value bit
 tells where one run ends and the next begins.
 */
module BitmapCodec {
  import opened Prelude
  import opened Bits

  const VALUE_SIZE := 14
  const FULL: nat := 0x3FFF
  const BASE: nat := 0x4000
  const RUN_MARK: nat := 0x8000

  type Word = w: nat | w < 0x1_0000 witness 0

  /** The two mark bits are clear. */
  predicate Clean(ws: seq<Word>) {
    forall i :: 0 <= i < |ws| ==> ws[i] < BASE
  }

  predicate IsRunWord(w: Word) {
    w >= RUN_MARK
  }

  predicate RunValue(w: Word) {
    w / BASE % 2 == 1
  }

  function Payload(w: Word): (r: Word)
    ensures r < BASE
  {
    w % BASE
  }

  function RunWord(v: bool, digit: nat): (w: Word)
    requires digit < BASE
    ensures IsRunWord(w) && RunValue(w) == v && Payload(w) == digit
  {
    RUN_MARK + (if v then BASE else 0) + digit
  }

  /** The fields above are what the masks of the source select. */
  lemma {:induction false} MasksSelectFields(w: Word)
    ensures IsRunWord(w) <==> Bit(w, 15)
    ensures RunValue(w) <==> Bit(w, 14)
    ensures Payload(w) == And(w, FULL)
  {
    MarkBits(w);
    PayloadMask(w);
  }

  lemma {:induction false} MarkBits(w: Word)
    ensures IsRunWord(w) <==> Bit(w, 15)
    ensures RunValue(w) <==> Bit(w, 14)
  {
    Pow2Values();
    BitIsQuotient(15, w);
    BitIsQuotient(14, w);
  }

  lemma {:induction false} PayloadMask(w: Word)
    ensures Payload(w) == And(w, FULL)
  {
    Pow2Values();
    AndMask(14, w);
  }

  lemma {:induction false} BitIsQuotient(i: nat, w: nat)
    ensures Bit(w, i) <==> w / Pow2(i) % 2 == 1
  {
    if i > 0 {
      BitIsQuotient(i - 1, w / 2);
      DivDiv(w, 2, Pow2(i - 1));
    }
  }

  // ---------------------------------------------------------------- tokens

  /** What a compressed bitmap says: a run of equal bits, or fourteen bits as they are. */
  datatype Token = Run(value: bool, bits: nat) | Literal(word: Word)

  function Digits(v: bool, bits: nat): seq<Word> {
    if bits == 0 then [] else [RunWord(v, bits % BASE)] + Digits(v, bits / BASE)
  }

  function Emit(t: Token): seq<Word> {
    match t
    case Run(v, bits) => Digits(v, bits)
    case Literal(w) => [w]
  }

  function EmitAll(ts: seq<Token>): seq<Word> {
    if ts == [] then [] else Emit(ts[0]) + EmitAll(ts[1..])
  }

  function Uniform(v: bool): Word {
    if v then FULL else 0
  }

  function Repeat(v: bool, n: nat): (r: seq<Word>)
    ensures |r| == n && forall i :: 0 <= i < n ==> r[i] == Uniform(v)
  {
    if n == 0 then [] else Repeat(v, n - 1) + [Uniform(v)]
  }

  function Expand(t: Token): seq<Word> {
    match t
    case Run(v, bits) => Repeat(v, bits / VALUE_SIZE)
    case Literal(w) => [w]
  }

  function ExpandAll(ts: seq<Token>): seq<Word> {
    if ts == [] then [] else Expand(ts[0]) + ExpandAll(ts[1..])
  }

  /** `compress`: `pending` words of value `v` have been counted and not written yet. */
  function Tokens(ws: seq<Word>, v: bool, pending: nat): seq<Token> {
    if ws == [] then Flush(v, pending)
    else if Payload(ws[0]) == Uniform(v) then Tokens(ws[1..], v, pending + 1)
    else if Payload(ws[0]) in {0, FULL} then Flush(v, pending) + Tokens(ws[1..], !v, 1)
    else Flush(v, pending) + ([Literal(ws[0])] + Tokens(ws[1..], v, 0))
  }

  function Flush(v: bool, pending: nat): seq<Token> {
    if pending == 0 then [] else if pending == 1 then [Literal(Uniform(v))] else [Run(v, VALUE_SIZE * pending)]
  }

  function Encode(ws: seq<Word>): seq<Word> {
    EmitAll(Tokens(ws, false, 0))
  }

  // ---------------------------------------------------------------- reading

  predicate SameRun(w: Word, v: bool) {
    IsRunWord(w) && RunValue(w) == v
  }

  /** How many words at the start of `ws` are run words of value `v`. */
  function RunLength(ws: seq<Word>, v: bool): (n: nat)
    ensures n <= |ws|
    ensures forall i :: 0 <= i < n ==> SameRun(ws[i], v)
    ensures n < |ws| ==> !SameRun(ws[n], v)
  {
    if ws == [] || !SameRun(ws[0], v) then 0 else 1 + RunLength(ws[1..], v)
  }

  /** The number whose digits the words hold. */
  function Value(ws: seq<Word>): nat {
    if ws == [] then 0 else Payload(ws[0]) + BASE * Value(ws[1..])
  }

  /** The reader counts in 32 bits. */
  function Count32(ws: seq<Word>): nat {
    Value(ws) % TWO_32
  }

  function Parse(ws: seq<Word>): seq<Token> {
    if ws == [] then []
    else if IsRunWord(ws[0]) then
      var v := RunValue(ws[0]);
      var n := RunLength(ws, v);
      [Run(v, Count32(ws[..n]))] + Parse(ws[n..])
    else
      [Literal(Payload(ws[0]))] + Parse(ws[1..])
  }

  function Decode(ws: seq<Word>): seq<Word> {
    ExpandAll(Parse(ws))
  }

  // ---------------------------------------------------------------- digits

  lemma {:induction false} DigitsHoldCount(v: bool, bits: nat)
    ensures Value(Digits(v, bits)) == bits
    ensures forall i :: 0 <= i < |Digits(v, bits)| ==> SameRun(Digits(v, bits)[i], v)
    ensures bits > 0 ==> Digits(v, bits) != []
    decreases bits
  {
    if bits > 0 {
      DigitsHoldCount(v, bits / BASE);
      assert Digits(v, bits)[1..] == Digits(v, bits / BASE);
    }
  }

  lemma {:induction false} DigitsAreFew(v: bool, bits: nat)
    ensures |Digits(v, bits)| <= bits / BASE + 1
    decreases bits
  {
    if bits > 0 {
      DigitsAreFew(v, bits / BASE);
    }
  }

  lemma {:induction false} RunLengthOfDigits(ds: seq<Word>, v: bool, rest: seq<Word>)
    requires forall i :: 0 <= i < |ds| ==> SameRun(ds[i], v)
    requires rest == [] || !SameRun(rest[0], v)
    ensures RunLength(ds + rest, v) == |ds|
  {
    if ds == [] {
      assert ds + rest == rest;
    } else {
      RunLengthOfDigits(ds[1..], v, rest);
      assert (ds + rest)[1..] == ds[1..] + rest;
    }
  }

  // ---------------------------------------------------------------- unambiguity

  /** The token's words are read back as this token. */
  predicate Readable(t: Token) {
    match t
    case Run(_, bits) => 0 < bits < TWO_32
    case Literal(w) => w < BASE
  }

  /** Adjacent runs differ in value, so the reader can tell them apart. */
  predicate Separated(ts: seq<Token>) {
    && (forall i :: 0 <= i < |ts| ==> Readable(ts[i]))
    && (forall i :: 0 <= i < |ts| - 1 && ts[i].Run? && ts[i + 1].Run? ==> ts[i].value != ts[i + 1].value)
  }

  lemma {:induction false} EmitStarts(ts: seq<Token>, v: bool)
    requires Separated(ts) && (ts != [] && ts[0].Run? ==> ts[0].value != v)
    ensures EmitAll(ts) == [] || !SameRun(EmitAll(ts)[0], v)
  {
    if ts != [] && ts[0].Run? {
      DigitsHoldCount(ts[0].value, ts[0].bits);
    }
  }

  lemma {:induction false} ParseRun(ds: seq<Word>, v: bool, rest: seq<Word>)
    requires ds != [] && forall i :: 0 <= i < |ds| ==> SameRun(ds[i], v)
    requires rest == [] || !SameRun(rest[0], v)
    ensures Parse(ds + rest) == [Run(v, Count32(ds))] + Parse(rest)
  {
    var ws := ds + rest;
    RunLengthOfDigits(ds, v, rest);
    assert SameRun(ws[0], v);
    assert ws[..|ds|] == ds && ws[|ds|..] == rest;
  }

  lemma {:induction false} ParseLiteral(w: Word, rest: seq<Word>)
    requires w < BASE
    ensures Parse([w] + rest) == [Literal(w)] + Parse(rest)
  {
    assert ([w] + rest)[1..] == rest;
  }

  lemma {:induction false} ParseDigits(v: bool, bits: nat, ds: seq<Word>, rest: seq<Word>)
    requires 0 < bits < TWO_32 && ds == Digits(v, bits)
    requires rest == [] || !SameRun(rest[0], v)
    ensures Parse(ds + rest) == [Run(v, bits)] + Parse(rest)
  {
    assert Count32(ds) == bits && ds != [] && forall i :: 0 <= i < |ds| ==> SameRun(ds[i], v) by {
      DigitsHoldCount(v, bits);
    }
    ParseRun(ds, v, rest);
  }

  lemma {:induction false} ParseToken(t: Token, rest: seq<Word>)
    requires Readable(t)
    requires t.Run? ==> rest == [] || !SameRun(rest[0], t.value)
    ensures Parse(Emit(t) + rest) == [t] + Parse(rest)
  {
    match t
    case Literal(w) => ParseLiteral(w, rest);
    case Run(v, bits) => ParseDigits(v, bits, Digits(v, bits), rest);
  }

  /** Separated tokens can be read back from the words they are written as. */
  lemma {:induction false} ParseEmit(ts: seq<Token>)
    requires Separated(ts)
    ensures Parse(EmitAll(ts)) == ts
  {
    if ts != [] {
      var t, rest := ts[0], ts[1..];
      var words := EmitAll(rest);
      assert EmitAll(ts) == Emit(t) + words && ts == [t] + rest;
      ParseEmit(rest);
      if t.Run? {
        EmitStarts(rest, t.value);
      }
      ParseToken(t, words);
    }
  }

  // ---------------------------------------------------------------- the encoder separates its runs

  /** What the tokens of `pending` words of value `v` followed by `ws` can start with. */
  predicate StartsOk(ts: seq<Token>, v: bool) {
    ts != [] && ts[0].Run? ==> ts[0].value == v
  }

  lemma {:induction false} TokensAreSeparated(ws: seq<Word>, v: bool, pending: nat)
    requires Clean(ws) && VALUE_SIZE * (pending + |ws|) < TWO_32
    ensures Separated(Tokens(ws, v, pending))
    ensures pending > 0 ==> StartsOk(Tokens(ws, v, pending), v)
    decreases |ws|
  {
    if ws != [] {
      if Payload(ws[0]) == Uniform(v) {
        TokensAreSeparated(ws[1..], v, pending + 1);
      } else if Payload(ws[0]) in {0, FULL} {
        TokensAreSeparated(ws[1..], !v, 1);
      } else {
        TokensAreSeparated(ws[1..], v, 0);
      }
    }
  }

  // ---------------------------------------------------------------- the round trip

  lemma {:induction false} ExpandConcat(a: seq<Token>, b: seq<Token>)
    ensures ExpandAll(a + b) == ExpandAll(a) + ExpandAll(b)
  {
    if a == [] {
      assert a + b == b;
    } else {
      ExpandConcat(a[1..], b);
      assert (a + b)[0] == a[0] && (a + b)[1..] == a[1..] + b;
      Regroup(Expand(a[0]), ExpandAll(a[1..]), ExpandAll(b));
    }
  }

  lemma {:induction false} ExpandFlush(v: bool, pending: nat, ts: seq<Token>)
    ensures ExpandAll(Flush(v, pending) + ts) == Repeat(v, pending) + ExpandAll(ts)
  {
    ExpandConcat(Flush(v, pending), ts);
    if pending == 1 {
      assert ExpandAll(Flush(v, 1)) == [Uniform(v)];
    } else if pending > 1 {
      assert ExpandAll(Flush(v, pending)) == Expand(Run(v, VALUE_SIZE * pending));
    }
    assert ExpandAll(Flush(v, pending)) == Repeat(v, pending);
  }

  lemma {:induction false} ExpandLiteral(w: Word, ts: seq<Token>)
    ensures ExpandAll([Literal(w)] + ts) == [w] + ExpandAll(ts)
  {
    assert ([Literal(w)] + ts)[1..] == ts;
  }

  /** The tokens spell out the pending words and the words still to come. */
  lemma {:induction false} ExpandTokens(ws: seq<Word>, v: bool, pending: nat)
    requires Clean(ws)
    ensures ExpandAll(Tokens(ws, v, pending)) == Repeat(v, pending) + ws
    decreases |ws|
  {
    if ws == [] {
      ExpandFlush(v, pending, []);
      assert Flush(v, pending) + [] == Flush(v, pending);
    } else {
      var w, rest := ws[0], ws[1..];
      if Payload(w) == Uniform(v) {
        ExpandTokens(rest, v, pending + 1);
        RepeatNext(v, pending, ws);
      } else if Payload(w) in {0, FULL} {
        ExpandTokens(rest, !v, 1);
        RepeatNext(!v, 0, ws);
        ExpandFlush(v, pending, Tokens(rest, !v, 1));
      } else {
        ExpandTokens(rest, v, 0);
        ExpandLiteral(w, Tokens(rest, v, 0));
        assert [w] + (Repeat(v, 0) + rest) == ws;
        ExpandFlush(v, pending, [Literal(w)] + Tokens(rest, v, 0));
      }
    }
  }

  lemma RepeatNext(v: bool, n: nat, ws: seq<Word>)
    requires ws != [] && ws[0] == Uniform(v)
    ensures Repeat(v, n + 1) + ws[1..] == Repeat(v, n) + ws
    ensures Repeat(v, 0) + ws == ws
  {
  }

  /** The largest number of words whose bits can be counted in 32 bits. */
  predicate Countable(n: nat) {
    VALUE_SIZE * n < TWO_32
  }

  /** Uncompressing what was compressed gives back every word. */
  lemma {:induction false} RoundTrip(ws: seq<Word>)
    requires Clean(ws) && Countable(|ws|)
    ensures Decode(Encode(ws)) == ws
  {
    TokensAreSeparated(ws, false, 0);
    ParseEmit(Tokens(ws, false, 0));
    ExpandTokens(ws, false, 0);
    assert Repeat(false, 0) == [];
  }

  lemma {:induction false} EncodeIsInjective(a: seq<Word>, b: seq<Word>)
    requires Clean(a) && Clean(b) && Countable(|a|) && Countable(|b|)
    requires Encode(a) == Encode(b)
    ensures a == b
  {
    RoundTrip(a);
    RoundTrip(b);
  }

  lemma {:induction false} EmitConcat(a: seq<Token>, b: seq<Token>)
    ensures EmitAll(a + b) == EmitAll(a) + EmitAll(b)
  {
    if a == [] {
      assert a + b == b;
    } else {
      EmitConcat(a[1..], b);
      assert (a + b)[0] == a[0] && (a + b)[1..] == a[1..] + b;
      Regroup(Emit(a[0]), EmitAll(a[1..]), EmitAll(b));
    }
  }

  lemma FlushFits(v: bool, pending: nat)
    ensures |EmitAll(Flush(v, pending))| <= pending
  {
    if pending > 1 {
      DigitsAreFew(v, VALUE_SIZE * pending);
      assert EmitAll(Flush(v, pending)) == Digits(v, VALUE_SIZE * pending);
    }
  }

  /** Beyond that limit the count of a uniform bitmap wraps around, so that the limit is the
      exact one: a run of `n` words is read back as itself if and only if it is countable. */
  lemma {:induction false} UniformRoundTripExactly(v: bool, n: nat)
    requires n > 1
    ensures Parse(EmitAll(Flush(v, n))) == Flush(v, n) <==> Countable(n)
  {
    var bits := VALUE_SIZE * n;
    var ds := Digits(v, bits);
    DigitsHoldCount(v, bits);
    ParseRun(ds, v, []);
    assert ds + [] == ds && EmitAll(Flush(v, n)) == ds;
    assert Parse(ds) == [Run(v, bits % TWO_32)];
    assert bits % TWO_32 == bits <==> bits < TWO_32;
  }

  // ---------------------------------------------------------------- complement

  /** `operator~` on one word of a compressed bitmap. */
  function FlipCompressed(w: Word): Word {
    if IsRunWord(w) then if RunValue(w) then w - BASE else w + BASE
    else FULL - Payload(w)
  }

  function FlipAll(ws: seq<Word>): (r: seq<Word>)
    ensures |r| == |ws|
    ensures forall i :: 0 <= i < |ws| ==> r[i] == FlipCompressed(ws[i])
  {
    seq(|ws|, i requires 0 <= i < |ws| => FlipCompressed(ws[i]))
  }

  /** The 14-bit complement of every word. */
  function ComplementAll(ws: seq<Word>): (r: seq<Word>)
    requires Clean(ws)
    ensures |r| == |ws|
    ensures forall i :: 0 <= i < |ws| ==> r[i] == FULL - ws[i]
  {
    seq(|ws|, i requires 0 <= i < |ws| => FULL - ws[i])
  }

  lemma ComplementRun(v: bool, n: nat, ws: seq<Word>)
    requires Clean(ws)
    ensures Clean(Repeat(v, n) + ws)
    ensures ComplementAll(Repeat(v, n) + ws) == Repeat(!v, n) + ComplementAll(ws)
  {
  }

  lemma ComplementFlipsBits(w: Word, i: nat)
    requires w < BASE && i < VALUE_SIZE
    ensures Bit(FULL - w, i) <==> !Bit(w, i)
  {
    Pow2Values();
    BitFlip(14, w, i);
  }

  lemma FlipWord(w: Word, v: bool)
    ensures SameRun(FlipCompressed(w), !v) <==> SameRun(w, v)
    ensures IsRunWord(w) ==> Payload(FlipCompressed(w)) == Payload(w)
    ensures !IsRunWord(w) ==> !IsRunWord(FlipCompressed(w)) && Payload(FlipCompressed(w)) == FULL - Payload(w)
  {
  }

  lemma {:induction false} FlipKeepsRunLength(ws: seq<Word>, v: bool)
    ensures RunLength(FlipAll(ws), !v) == RunLength(ws, v)
  {
    if ws != [] {
      FlipWord(ws[0], v);
      assert FlipAll(ws)[1..] == FlipAll(ws[1..]);
      FlipKeepsRunLength(ws[1..], v);
    }
  }

  lemma {:induction false} FlipKeepsValue(ws: seq<Word>)
    requires forall i :: 0 <= i < |ws| ==> IsRunWord(ws[i])
    ensures Value(FlipAll(ws)) == Value(ws)
  {
    if ws != [] {
      FlipWord(ws[0], true);
      assert FlipAll(ws)[1..] == FlipAll(ws[1..]);
      FlipKeepsValue(ws[1..]);
    }
  }

  lemma {:induction false} DecodeIsClean(ws: seq<Word>)
    ensures Clean(Decode(ws))
    decreases |ws|
  {
    if ws != [] {
      if IsRunWord(ws[0]) {
        DecodeIsClean(ws[RunLength(ws, RunValue(ws[0]))..]);
      } else {
        DecodeIsClean(ws[1..]);
      }
    }
  }

  /** Complementing a compressed bitmap word by word complements what it stands for; this
      holds of every word sequence, not only of those that the encoder writes. */
  lemma {:induction false} FlipDecodesToComplement(ws: seq<Word>)
    ensures Clean(Decode(ws)) && Decode(FlipAll(ws)) == ComplementAll(Decode(ws))
    decreases |ws|
  {
    DecodeIsClean(ws);
    if ws != [] {
      var v, fs := RunValue(ws[0]), FlipAll(ws);
      FlipWord(ws[0], v);
      if IsRunWord(ws[0]) {
        var n := RunLength(ws, v);
        FlipDecodesToComplement(ws[n..]);
        DecodeRun(ws);
        FlipRun(ws);
        ComplementRun(v, Count32(ws[..n]) / VALUE_SIZE, Decode(ws[n..]));
      } else {
        FlipDecodesToComplement(ws[1..]);
        assert fs[1..] == FlipAll(ws[1..]);
        DecodeLiteral(ws);
        DecodeLiteral(fs);
      }
    }
  }

  /** The complement of a run is the run of the other value, just as long. */
  lemma {:induction false} FlipRun(ws: seq<Word>)
    requires ws != [] && IsRunWord(ws[0])
    ensures var v := RunValue(ws[0]);
      var n := RunLength(ws, v);
      var m := Count32(ws[..n]) / VALUE_SIZE;
      Decode(FlipAll(ws)) == Repeat(!v, m) + Decode(FlipAll(ws[n..]))
  {
    var v, fs := RunValue(ws[0]), FlipAll(ws);
    var n := RunLength(ws, v);
    FlipWord(ws[0], v);
    FlipKeepsRunLength(ws, v);
    FlipKeepsValue(ws[..n]);
    FlipSplits(ws, n);
    DecodeRunOf(fs, !v, n, Count32(ws[..n]));
  }

  lemma FlipSplits(ws: seq<Word>, n: nat)
    requires n <= |ws|
    ensures FlipAll(ws)[..n] == FlipAll(ws[..n]) && FlipAll(ws)[n..] == FlipAll(ws[n..])
  {
  }

  lemma {:induction false} DecodeRunOf(ws: seq<Word>, v: bool, n: nat, count: nat)
    requires ws != [] && IsRunWord(ws[0]) && v == RunValue(ws[0]) && n == RunLength(ws, v) <= |ws|
    requires count == Count32(ws[..n])
    ensures Decode(ws) == Repeat(v, count / VALUE_SIZE) + Decode(ws[n..])
  {
    DecodeRun(ws);
  }

  lemma {:induction false} DecodeRun(ws: seq<Word>)
    requires ws != [] && IsRunWord(ws[0])
    ensures var v := RunValue(ws[0]);
      var n := RunLength(ws, v);
      n > 0 && Decode(ws) == Repeat(v, Count32(ws[..n]) / VALUE_SIZE) + Decode(ws[n..])
  {
    var v := RunValue(ws[0]);
    var n := RunLength(ws, v);
    var t := Run(v, Count32(ws[..n]));
    assert Parse(ws) == [t] + Parse(ws[n..]);
    assert ([t] + Parse(ws[n..]))[1..] == Parse(ws[n..]);
  }

  lemma {:induction false} DecodeLiteral(ws: seq<Word>)
    requires ws != [] && !IsRunWord(ws[0])
    ensures Decode(ws) == [Payload(ws[0])] + Decode(ws[1..])
  {
    var t := Literal(Payload(ws[0]));
    assert ([t] + Parse(ws[1..]))[1..] == Parse(ws[1..]);
  }
}

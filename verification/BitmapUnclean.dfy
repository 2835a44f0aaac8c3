/** What `compress` does to words whose mark bits are not clear, as plain `~` leaves them
    (Sylar/DataStructure/bitmap.cc): mixed words are copied with their marks. */
module BitmapUnclean {
  import opened Prelude
  import opened BitmapCodec

  function Payloads(ws: seq<Word>): (r: seq<Word>)
    ensures |r| == |ws| && Clean(r) && forall i :: 0 <= i < |ws| ==> r[i] == Payload(ws[i])
  {
    seq(|ws|, i requires 0 <= i < |ws| => Payload(ws[i]))
  }

  /** Neither all clear nor all set. */
  predicate Mixed(w: Word) {
    Payload(w) !in {0, FULL}
  }

  /** No mixed word looks like a run word. */
  predicate Copyable(ws: seq<Word>) {
    forall i :: 0 <= i < |ws| && Mixed(ws[i]) ==> !IsRunWord(ws[i])
  }

  // ---------------------------------------------------------------- copyable words survive

  function Masked(t: Token): Token {
    if t.Literal? then Literal(Payload(t.word)) else t
  }

  function MaskedAll(ts: seq<Token>): seq<Token> {
    if ts == [] then [] else [Masked(ts[0])] + MaskedAll(ts[1..])
  }

  lemma {:induction false} MaskedConcat(a: seq<Token>, b: seq<Token>)
    ensures MaskedAll(a + b) == MaskedAll(a) + MaskedAll(b)
  {
    if a == [] {
      assert a + b == b;
    } else {
      MaskedConcat(a[1..], b);
      HeadAndTail(a, b);
      Regroup([Masked(a[0])], MaskedAll(a[1..]), MaskedAll(b));
    }
  }

  lemma {:induction false} MaskedFlush(v: bool, n: nat, ts: seq<Token>)
    ensures MaskedAll(Flush(v, n) + ts) == Flush(v, n) + MaskedAll(ts)
  {
    MaskedConcat(Flush(v, n), ts);
    assert MaskedAll(Flush(v, n)) == Flush(v, n);
  }

  lemma {:induction false} MaskedLiteral(v: bool, n: nat, w: Word, ts: seq<Token>)
    ensures MaskedAll(Flush(v, n) + ([Literal(w)] + ts)) == Flush(v, n) + ([Literal(Payload(w))] + MaskedAll(ts))
  {
    MaskedFlush(v, n, [Literal(w)] + ts);
    assert ([Literal(w)] + ts)[1..] == ts;
  }

  lemma PayloadsSplit(ws: seq<Word>)
    requires ws != []
    ensures Payloads(ws)[0] == Payload(ws[0]) && Payloads(ws)[1..] == Payloads(ws[1..])
  {
  }

  /** What the encoder makes of a word, given what it makes of the others. */
  function FirstToken(w: Word, v: bool, n: nat, same: seq<Token>, other: seq<Token>, mixed: seq<Token>): seq<Token> {
    if Payload(w) == Uniform(v) then same
    else if Payload(w) in {0, FULL} then Flush(v, n) + other
    else Flush(v, n) + ([Literal(w)] + mixed)
  }

  lemma TokensStep(ws: seq<Word>, v: bool, n: nat)
    requires ws != []
    ensures Tokens(ws, v, n) ==
      FirstToken(ws[0], v, n, Tokens(ws[1..], v, n + 1), Tokens(ws[1..], !v, 1), Tokens(ws[1..], v, 0))
  {
  }

  lemma {:induction false} MaskedFirst(
      w: Word, v: bool, n: nat, same: seq<Token>, other: seq<Token>, mixed: seq<Token>)
    ensures MaskedAll(FirstToken(w, v, n, same, other, mixed)) ==
      FirstToken(Payload(w), v, n, MaskedAll(same), MaskedAll(other), MaskedAll(mixed))
  {
    if Payload(w) != Uniform(v) {
      if Payload(w) in {0, FULL} {
        MaskedFlush(v, n, other);
      } else {
        MaskedLiteral(v, n, w, mixed);
      }
    }
  }

  /** Clearing the marks first gives the tokens without their marks. */
  lemma {:induction false} TokensOfPayloads(ws: seq<Word>, v: bool, n: nat)
    ensures Tokens(Payloads(ws), v, n) == MaskedAll(Tokens(ws, v, n))
    decreases |ws|
  {
    if ws == [] {
      MaskedFlush(v, n, []);
      assert Flush(v, n) + [] == Flush(v, n) && MaskedAll([]) == [];
    } else {
      var rest := ws[1..];
      PayloadsSplit(ws);
      TokensOfPayloads(rest, v, n + 1);
      TokensOfPayloads(rest, !v, 1);
      TokensOfPayloads(rest, v, 0);
      TokensStep(ws, v, n);
      TokensStep(Payloads(ws), v, n);
      MaskedFirst(ws[0], v, n, Tokens(rest, v, n + 1), Tokens(rest, !v, 1), Tokens(rest, v, 0));
    }
  }

  /** The reader drops what the encoder should not have copied. */
  lemma {:induction false} ParseMasked(w: Word, rest: seq<Word>)
    requires !IsRunWord(w)
    ensures Parse([w] + rest) == [Literal(Payload(w))] + Parse(rest)
  {
    assert ([w] + rest)[1..] == rest;
  }

  predicate Unmarked(ts: seq<Token>) {
    forall i :: 0 <= i < |ts| && ts[i].Literal? ==> !IsRunWord(ts[i].word)
  }

  lemma {:induction false} EmitMaskedStarts(ts: seq<Token>, v: bool)
    requires Unmarked(ts) && Separated(MaskedAll(ts)) && (ts != [] && ts[0].Run? ==> ts[0].value != v)
    ensures EmitAll(ts) == [] || !SameRun(EmitAll(ts)[0], v)
  {
    if ts != [] && ts[0].Run? {
      assert MaskedAll(ts)[0] == ts[0];
      DigitsHoldCount(ts[0].value, ts[0].bits);
    }
  }

  lemma {:induction false} SeparatedRest(t: Token, ts: seq<Token>)
    requires Separated([t] + ts)
    ensures Separated(ts) && Readable(t) && (t.Run? && ts != [] && ts[0].Run? ==> ts[0].value != t.value)
  {
    var all := [t] + ts;
    assert all[0] == t && all[1..] == ts;
    forall i | 0 <= i < |ts|
      ensures Readable(ts[i])
      ensures i + 1 < |ts| && ts[i].Run? && ts[i + 1].Run? ==> ts[i].value != ts[i + 1].value
    {
      assert all[i + 1] == ts[i] && Readable(all[i + 1]);
    }
    assert ts != [] ==> all[1] == ts[0];
  }

  lemma {:induction false} ParseEmitMasked(ts: seq<Token>)
    requires Unmarked(ts) && Separated(MaskedAll(ts))
    ensures Parse(EmitAll(ts)) == MaskedAll(ts)
  {
    if ts != [] {
      var t, rest := ts[0], ts[1..];
      SeparatedRest(Masked(t), MaskedAll(rest));
      ParseEmitMasked(rest);
      if t.Run? {
        assert rest != [] ==> MaskedAll(rest)[0] == Masked(rest[0]);
        EmitMaskedStarts(rest, t.value);
        ParseToken(t, EmitAll(rest));
      } else {
        ParseMasked(t.word, EmitAll(rest));
      }
    }
  }

  lemma {:induction false} TokensAreUnmarked(ws: seq<Word>, v: bool, n: nat)
    requires Copyable(ws)
    ensures Unmarked(Tokens(ws, v, n))
    decreases |ws|
  {
    if ws != [] {
      TokensAreUnmarked(ws[1..], v, n + 1);
      TokensAreUnmarked(ws[1..], !v, 1);
      TokensAreUnmarked(ws[1..], v, 0);
    }
  }

  lemma {:induction false} CopyableSurvives(ws: seq<Word>)
    requires Countable(|ws|) && Copyable(ws)
    ensures Decode(Encode(ws)) == Payloads(ws)
  {
    var ts := Tokens(ws, false, 0);
    TokensAreUnmarked(ws, false, 0);
    TokensOfPayloads(ws, false, 0);
    TokensAreSeparated(Payloads(ws), false, 0);
    ParseEmitMasked(ts);
    ExpandTokens(Payloads(ws), false, 0);
    assert Repeat(false, 0) == [];
  }

  // ---------------------------------------------------------------- others are lost

  /** How many words satisfy `f`. */
  function CountIf(ws: seq<Word>, f: Word -> bool): nat {
    if ws == [] then 0 else (if f(ws[0]) then 1 else 0) + CountIf(ws[1..], f)
  }

  lemma {:induction false} CountConcat(a: seq<Word>, b: seq<Word>, f: Word -> bool)
    ensures CountIf(a + b, f) == CountIf(a, f) + CountIf(b, f)
  {
    if a == [] {
      assert a + b == b;
    } else {
      CountConcat(a[1..], b, f);
      assert (a + b)[0] == a[0] && (a + b)[1..] == a[1..] + b;
    }
  }

  lemma {:induction false} CountTail(ws: seq<Word>, n: nat, f: Word -> bool)
    requires n <= |ws|
    ensures CountIf(ws[n..], f) <= CountIf(ws, f)
  {
    CountConcat(ws[..n], ws[n..], f);
    assert ws[..n] + ws[n..] == ws;
  }

  lemma {:induction false} CountNone(ws: seq<Word>, f: Word -> bool)
    requires forall i :: 0 <= i < |ws| ==> !f(ws[i])
    ensures CountIf(ws, f) == 0
  {
    if ws != [] {
      CountNone(ws[1..], f);
    }
  }

  /** A mixed word that a reader will take for a literal. */
  predicate PlainlyMixed(w: Word) {
    Mixed(w) && !IsRunWord(w)
  }

  lemma {:induction false} DecodedMixedRun(bs: seq<Word>, n: nat)
    requires bs != [] && IsRunWord(bs[0]) && n == RunLength(bs, RunValue(bs[0]))
    ensures CountIf(Decode(bs), Mixed) == CountIf(Decode(bs[n..]), Mixed)
  {
    DecodeRun(bs);
    var v, rest := RunValue(bs[0]), Decode(bs[n..]);
    var run := Repeat(v, Count32(bs[..n]) / VALUE_SIZE);
    CountNone(run, Mixed);
    CountConcat(run, rest, Mixed);
  }

  lemma {:induction false} DecodedMixedLiteral(bs: seq<Word>)
    requires bs != [] && !IsRunWord(bs[0])
    ensures CountIf(Decode(bs), Mixed) == (if Mixed(bs[0]) then 1 else 0) + CountIf(Decode(bs[1..]), Mixed)
  {
    DecodeLiteral(bs);
    var rest := Decode(bs[1..]);
    assert ([Payload(bs[0])] + rest)[1..] == rest;
  }

  /** A reader finds no more mixed words than there are mixed literals. */
  lemma {:induction false} DecodedMixed(bs: seq<Word>)
    ensures CountIf(Decode(bs), Mixed) <= CountIf(bs, PlainlyMixed)
    decreases |bs|
  {
    if bs != [] {
      if IsRunWord(bs[0]) {
        var n := RunLength(bs, RunValue(bs[0]));
        DecodedMixedRun(bs, n);
        DecodedMixed(bs[n..]);
        CountTail(bs, n, PlainlyMixed);
      } else {
        DecodedMixedLiteral(bs);
        DecodedMixed(bs[1..]);
      }
    }
  }

  lemma EmitOne(t: Token)
    ensures EmitAll([t]) == Emit(t)
  {
    assert [t][1..] == [] && Emit(t) + [] == Emit(t);
  }

  lemma FlushIsNotMixed(v: bool, n: nat)
    ensures CountIf(EmitAll(Flush(v, n)), PlainlyMixed) == 0
  {
    var ws := EmitAll(Flush(v, n));
    if n > 1 {
      DigitsHoldCount(v, VALUE_SIZE * n);
      EmitOne(Run(v, VALUE_SIZE * n));
    } else if n == 1 {
      EmitOne(Literal(Uniform(v)));
    }
    CountNone(ws, PlainlyMixed);
  }

  lemma {:induction false} EmitAfterFlush(v: bool, n: nat, ts: seq<Token>)
    ensures CountIf(EmitAll(Flush(v, n) + ts), PlainlyMixed) == CountIf(EmitAll(ts), PlainlyMixed)
  {
    EmitConcat(Flush(v, n), ts);
    FlushIsNotMixed(v, n);
    CountConcat(EmitAll(Flush(v, n)), EmitAll(ts), PlainlyMixed);
  }

  lemma {:induction false} EmitAfterLiteral(w: Word, ts: seq<Token>)
    ensures CountIf(EmitAll([Literal(w)] + ts), PlainlyMixed)
      == (if PlainlyMixed(w) then 1 else 0) + CountIf(EmitAll(ts), PlainlyMixed)
  {
    assert ([Literal(w)] + ts)[1..] == ts;
    assert EmitAll([Literal(w)] + ts) == [w] + EmitAll(ts);
    assert ([w] + EmitAll(ts))[1..] == EmitAll(ts);
  }

  /** The encoder writes a mixed literal for each mixed word without the run mark. */
  lemma {:induction false} EncodedMixed(ws: seq<Word>, v: bool, n: nat)
    ensures CountIf(EmitAll(Tokens(ws, v, n)), PlainlyMixed) == CountIf(ws, PlainlyMixed)
    decreases |ws|
  {
    if ws == [] {
      FlushIsNotMixed(v, n);
    } else {
      var w, rest := ws[0], ws[1..];
      if Payload(w) == Uniform(v) {
        EncodedMixed(rest, v, n + 1);
      } else if Payload(w) in {0, FULL} {
        EncodedMixed(rest, !v, 1);
        EmitAfterFlush(v, n, Tokens(rest, !v, 1));
      } else {
        EncodedMixed(rest, v, 0);
        EmitAfterFlush(v, n, [Literal(w)] + Tokens(rest, v, 0));
        EmitAfterLiteral(w, Tokens(rest, v, 0));
      }
    }
  }

  lemma {:induction false} MixedPayloads(ws: seq<Word>)
    ensures CountIf(Payloads(ws), Mixed) == CountIf(ws, Mixed)
    ensures CountIf(ws, PlainlyMixed) <= CountIf(ws, Mixed)
    ensures CountIf(ws, PlainlyMixed) == CountIf(ws, Mixed) <==> Copyable(ws)
  {
    if ws != [] {
      var w, rest := ws[0], ws[1..];
      MixedPayloads(rest);
      assert Payloads(ws)[1..] == Payloads(rest) && Payloads(ws)[0] == Payload(w);
      assert ws == [w] + rest;
      assert Copyable(ws) <==> (Mixed(w) ==> !IsRunWord(w)) && Copyable(rest);
    }
  }

  /** Compressing and uncompressing gives back the payload of every word if and only if no
      mixed word carries the run mark. */
  lemma {:induction false} CompressIsExactly(ws: seq<Word>)
    requires Countable(|ws|)
    ensures Decode(Encode(ws)) == Payloads(ws) <==> Copyable(ws)
  {
    if Copyable(ws) {
      CopyableSurvives(ws);
    } else {
      DecodedMixed(Encode(ws));
      EncodedMixed(ws, false, 0);
      MixedPayloads(ws);
    }
  }

  /** `~` on a plain bitmap. */
  function Flipped(ws: seq<Word>): (r: seq<Word>)
    ensures |r| == |ws| && forall i :: 0 <= i < |ws| ==> r[i] == 0xFFFF - ws[i]
  {
    seq(|ws|, i requires 0 <= i < |ws| => 0xFFFF - ws[i])
  }

  /** Hence a clean plain bitmap may be complemented and then compressed if and only if none
      of its words is mixed. */
  lemma {:induction false} FlipThenCompressExactly(ws: seq<Word>)
    requires Clean(ws) && Countable(|ws|)
    ensures Decode(Encode(Flipped(ws))) == ComplementAll(ws)
      <==> forall i :: 0 <= i < |ws| ==> ws[i] == 0 || ws[i] == FULL
  {
    var fs := Flipped(ws);
    forall i | 0 <= i < |ws|
      ensures Payload(fs[i]) == FULL - ws[i] && IsRunWord(fs[i])
      ensures Mixed(fs[i]) <==> ws[i] != 0 && ws[i] != FULL
    {
    }
    assert Payloads(fs) == ComplementAll(ws);
    CompressIsExactly(fs);
  }

  /** One mixed word is enough: with a single bit set, complemented and compressed, it comes back
      as a run word would. */
  lemma {:induction false} FlipThenCompressCanFail()
    ensures Decode(Encode(Flipped([1]))) != ComplementAll([1])
  {
    FlipThenCompressExactly([1]);
  }
}

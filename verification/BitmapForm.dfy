/**
 The form of a compressed bitmap (Sylar/DataStructure/bitmap.cc): every stretch of equal
 uniform words is written as one run, and nothing else is. That fixes the code of every
 bitmap, and says when it is shorter than the bitmap.
 */
module BitmapForm {
  import opened Prelude
  import opened Bits
  import opened BitmapCodec

  // ---------------------------------------------------------------- tokens

  /** The token stands for words of value `v` only. */
  predicate IsOf(t: Token, v: bool) {
    if t.Run? then t.value == v else t.word == Uniform(v)
  }

  /** A run covers two words or more, all of their bits; a literal has no marks. */
  predicate Whole(t: Token) {
    match t
    case Run(_, bits) => bits % 14 == 0 && bits >= 28
    case Literal(w) => w < BASE
  }

  /** Both tokens stand for words of one value. */
  predicate Alike(t: Token, u: Token) {
    (IsOf(t, false) && IsOf(u, false)) || (IsOf(t, true) && IsOf(u, true))
  }

  /** No stretch of equal uniform words is written in two parts. */
  ghost predicate Maximal(ts: seq<Token>) {
    && (forall i :: 0 <= i < |ts| ==> Whole(ts[i]))
    && (forall i, j :: 0 <= i < j < |ts| && j == i + 1 ==> !Alike(ts[i], ts[j]))
  }

  lemma {:induction false} TokensAreMaximal(ws: seq<Word>, v: bool, pending: nat)
    requires Clean(ws)
    ensures Maximal(Tokens(ws, v, pending))
    ensures pending > 0 ==> Tokens(ws, v, pending) != [] && IsOf(Tokens(ws, v, pending)[0], v)
    decreases |ws|
  {
    FlushIsMaximal(v, pending);
    if ws != [] {
      var w, rest := ws[0], ws[1..];
      if Payload(w) == Uniform(v) {
        TokensAreMaximal(rest, v, pending + 1);
      } else if Payload(w) in {0, FULL} {
        TokensAreMaximal(rest, !v, 1);
        JoinIsMaximal(Flush(v, pending), Tokens(rest, !v, 1));
      } else {
        TokensAreMaximal(rest, v, 0);
        MixedIsMaximal(Flush(v, pending), w, Tokens(rest, v, 0));
      }
    }
  }

  lemma {:induction false} FlushIsMaximal(v: bool, pending: nat)
    ensures Maximal(Flush(v, pending))
    ensures pending == 0 ==> Flush(v, pending) == []
    ensures pending > 0 ==> |Flush(v, pending)| == 1 && IsOf(Flush(v, pending)[0], v)
  {
  }

  lemma {:induction false} JoinIsMaximal(a: seq<Token>, b: seq<Token>)
    requires Maximal(a) && Maximal(b) && (a == [] || b == [] || !Alike(a[|a| - 1], b[0]))
    ensures Maximal(a + b) && (a != [] ==> (a + b)[0] == a[0])
  {
  }

  lemma {:induction false} MixedIsMaximal(a: seq<Token>, w: Word, b: seq<Token>)
    requires Maximal(a) && Maximal(b) && w < BASE && w !in {0, FULL}
    ensures Maximal(a + ([Literal(w)] + b)) && (a != [] ==> (a + ([Literal(w)] + b))[0] == a[0])
  {
    JoinIsMaximal([Literal(w)], b);
    JoinIsMaximal(a, [Literal(w)] + b);
  }

  /** How many words at the start of `ws` are uniform of value `v`. */
  function Leading(ws: seq<Word>, v: bool): nat {
    if ws == [] || ws[0] != Uniform(v) then 0 else 1 + Leading(ws[1..], v)
  }

  lemma {:induction false} LeadingOfRepeat(v: bool, n: nat, rest: seq<Word>)
    requires rest == [] || rest[0] != Uniform(v)
    ensures Leading(Repeat(v, n) + rest, v) == n
  {
    var ws := Repeat(v, n) + rest;
    if n == 0 {
      assert ws == rest;
    } else {
      LeadingOfRepeat(v, n - 1, rest);
      assert ws[1..] == Repeat(v, n - 1) + rest;
    }
  }

  lemma {:induction false} FirstWord(ts: seq<Token>)
    requires Maximal(ts) && ts != []
    ensures Expand(ts[0]) != [] && ExpandAll(ts) != []
    ensures Expand(ts[0])[0] == ExpandAll(ts)[0]
    ensures forall v :: IsOf(ts[0], v) <==> ExpandAll(ts)[0] == Uniform(v)
    ensures ExpandAll(ts)[0] < BASE
  {
  }

  /** The first token can be told from the words. */
  lemma {:induction false} FirstToken(ts: seq<Token>)
    requires Maximal(ts) && ts != []
    ensures ExpandAll(ts) != []
    ensures forall v :: ExpandAll(ts)[0] == Uniform(v) ==>
      var n := Leading(ExpandAll(ts), v);
      ts[0] == if n == 1 then Literal(Uniform(v)) else Run(v, 14 * n)
    ensures ExpandAll(ts)[0] !in {0, FULL} ==> ts[0] == Literal(ExpandAll(ts)[0])
  {
    FirstWord(ts);
    var rest := ts[1..];
    if rest != [] {
      FirstWord(rest);
    }
    forall v | IsOf(ts[0], v)
      ensures var n := Leading(ExpandAll(ts), v);
        ts[0] == if n == 1 then Literal(Uniform(v)) else Run(v, 14 * n)
    {
      assert rest != [] ==> !Alike(ts[0], ts[1]);
      var n := if ts[0].Run? then ts[0].bits / 14 else 1;
      assert Expand(ts[0]) == Repeat(v, n);
      LeadingOfRepeat(v, n, ExpandAll(rest));
    }
  }

  /** There is one way to write a bitmap in maximal tokens. */
  lemma {:induction false} MaximalIsUnique(a: seq<Token>, b: seq<Token>)
    requires Maximal(a) && Maximal(b) && ExpandAll(a) == ExpandAll(b)
    ensures a == b
  {
    if a == [] || b == [] {
      if a != [] {
        FirstWord(a);
      }
      if b != [] {
        FirstWord(b);
      }
    } else {
      FirstToken(a);
      FirstToken(b);
      assert ExpandAll(a)[0] in {0, FULL} ==> ExpandAll(a)[0] == Uniform(ExpandAll(a)[0] == FULL);
      assert a[0] == b[0];
      SameTail(Expand(a[0]), ExpandAll(a[1..]), ExpandAll(b[1..]));
      MaximalIsUnique(a[1..], b[1..]);
      assert a == [a[0]] + a[1..] && b == [b[0]] + b[1..];
    }
  }

  lemma SameTail(x: seq<Word>, a: seq<Word>, b: seq<Word>)
    requires x + a == x + b
    ensures a == b
  {
    assert (x + a)[|x|..] == a && (x + b)[|x|..] == b;
  }

  /** The code of a bitmap is the one maximal way to write it: runs exactly for the stretches of
      two or more equal uniform words, and the other words as they are. */
  lemma {:induction false} CodeIsTheMaximalOne(ws: seq<Word>, ts: seq<Token>)
    requires Clean(ws) && Maximal(ts) && ExpandAll(ts) == ws
    ensures Encode(ws) == EmitAll(ts)
  {
    TokensAreMaximal(ws, false, 0);
    ExpandTokens(ws, false, 0);
    assert Repeat(false, 0) + ws == ws;
    MaximalIsUnique(ts, Tokens(ws, false, 0));
  }

  // ---------------------------------------------------------------- words

  /** The words of the run are marked and carry the value; their digits are the number of bits,
      lowest first, without a leading zero. */
  ghost predicate IsRunOf(code: seq<Word>, v: bool, bits: nat) {
    && code != []
    && (forall i :: 0 <= i < |code| ==> code[i] / 0x4000 == if v then 3 else 2)
    && Value(code) == bits
    && code[|code| - 1] % 0x4000 != 0
  }

  lemma {:induction false} DigitsForm(v: bool, bits: nat)
    requires bits > 0
    ensures IsRunOf(Digits(v, bits), v, bits)
  {
    DigitsHoldCount(v, bits);
    DigitsRange(v, bits);
    DigitsEnd(v, bits);
  }

  /** The words of a run that can be counted in 32 bits. */
  lemma {:induction false} DigitsSpelled(v: bool, bits: nat)
    requires 0 < bits < TWO_32
    ensures var m, low, mid, high :=
        if v then 0xC000 else 0x8000, bits % 0x4000, bits / 0x4000 % 0x4000, bits / 0x1000_0000;
      Digits(v, bits) ==
        if bits < 0x4000 then [m + low]
        else if bits < 0x1000_0000 then [m + low, m + mid]
        else [m + low, m + mid, m + high]
  {
    var d := bits / BASE;
    assert Digits(v, bits) == [RunWord(v, bits % BASE)] + Digits(v, d);
    assert d > 0 ==> Digits(v, d) == [RunWord(v, d % BASE)] + Digits(v, d / BASE);
    assert d / BASE == bits / 0x1000_0000 && d / BASE < BASE;
    assert d / BASE > 0 ==> Digits(v, d / BASE) == [RunWord(v, d / BASE)] + Digits(v, 0);
  }

  lemma {:induction false} DigitsRange(v: bool, bits: nat)
    ensures forall i :: 0 <= i < |Digits(v, bits)| ==>
      Digits(v, bits)[i] / 0x4000 == if v then 3 else 2
    decreases bits
  {
    if bits > 0 {
      DigitsRange(v, bits / BASE);
    }
  }

  lemma {:induction false} DigitsEnd(v: bool, bits: nat)
    requires bits > 0
    ensures Digits(v, bits) != []
    ensures Digits(v, bits)[|Digits(v, bits)| - 1] % 0x4000 != 0
    decreases bits
  {
    if bits / BASE > 0 {
      DigitsEnd(v, bits / BASE);
    }
  }

  /** Equal uniform words are written as one run of all their bits, in one, two or three words
      if they can be counted; a single one is written as it is. */
  lemma {:induction false} RunsAreWritten(v: bool, n: nat)
    ensures Encode([]) == [] && Encode([Uniform(v)]) == [Uniform(v)]
    ensures n >= 2 ==> IsRunOf(Encode(Repeat(v, n)), v, 14 * n)
    ensures n >= 2 && Countable(n) ==>
      var m, low, mid, high :=
        if v then 0xC000 else 0x8000, 14 * n % 0x4000, 14 * n / 0x4000 % 0x4000, 14 * n / 0x1000_0000;
      Encode(Repeat(v, n)) ==
        if 14 * n < 0x4000 then [m + low]
        else if 14 * n < 0x1000_0000 then [m + low, m + mid]
        else [m + low, m + mid, m + high]
  {
    EncodeOne(Literal(Uniform(v)));
    if n >= 2 {
      EncodeOne(Run(v, 14 * n));
      DigitsForm(v, 14 * n);
      if Countable(n) {
        DigitsSpelled(v, 14 * n);
      }
    }
  }

  lemma {:induction false} EncodeOne(t: Token)
    requires Whole(t)
    ensures Encode(Expand(t)) == Emit(t)
  {
    var ts := [t];
    assert ExpandAll(ts) == Expand(t) + ExpandAll([]);
    assert EmitAll(ts) == Emit(t) + EmitAll([]);
    CodeIsTheMaximalOne(Expand(t), ts);
  }

  /** A word that stands for value `v`, plain or in a run. */
  predicate WordOf(w: Word, v: bool) {
    w == Uniform(v) || SameRun(w, v)
  }

  /** One run could stand for both words, and does not yet. */
  predicate Joinable(w: Word, x: Word) {
    && ((WordOf(w, false) && WordOf(x, false)) || (WordOf(w, true) && WordOf(x, true)))
    && !(IsRunWord(w) && IsRunWord(x))
  }

  ghost predicate NothingLeft(code: seq<Word>) {
    forall i, j :: 0 <= i < j < |code| && j == i + 1 ==> !Joinable(code[i], code[j])
  }

  lemma {:induction false} EmitFirst(ts: seq<Token>)
    requires Maximal(ts) && ts != []
    ensures Emit(ts[0]) != [] && EmitAll(ts) != []
    ensures EmitAll(ts)[0] == Emit(ts[0])[0]
    ensures forall v :: WordOf(EmitAll(ts)[0], v) <==> IsOf(ts[0], v)
  {
    if ts[0].Run? {
      DigitsHoldCount(ts[0].value, ts[0].bits);
    }
  }

  lemma {:induction false} NothingLeftInTokens(ts: seq<Token>)
    requires Maximal(ts)
    ensures NothingLeft(EmitAll(ts))
  {
    if ts != [] {
      var rest := ts[1..];
      NothingLeftInTokens(rest);
      EmitFirst(ts);
      if ts[0].Run? {
        DigitsHoldCount(ts[0].value, ts[0].bits);
      }
      if rest != [] {
        EmitFirst(rest);
        assert !Alike(ts[0], ts[1]);
      }
      JoinLeavesNothing(Emit(ts[0]), EmitAll(rest));
    }
  }

  lemma {:induction false} JoinLeavesNothing(a: seq<Word>, b: seq<Word>)
    requires a != [] && NothingLeft(b)
    requires |a| == 1 || forall i :: 0 <= i < |a| ==> IsRunWord(a[i])
    requires b == [] || !Joinable(a[|a| - 1], b[0])
    ensures NothingLeft(a + b)
  {
    var code := a + b;
    forall i, j | 0 <= i < j < |code| && j == i + 1
      ensures !Joinable(code[i], code[j])
    {
      if i >= |a| {
        assert code[i] == b[i - |a|] && code[j] == b[j - |a|];
      }
    }
  }

  /** In the code of a bitmap no two neighbours could be joined: two equal uniform words never
      stand side by side, nor one beside a run of its value. */
  lemma {:induction false} CodeLeavesNothing(ws: seq<Word>)
    requires Clean(ws)
    ensures NothingLeft(Encode(ws))
  {
    TokensAreMaximal(ws, false, 0);
    NothingLeftInTokens(Tokens(ws, false, 0));
  }

  // ---------------------------------------------------------------- length

  /** The bitmap holds two equal uniform words side by side. */
  ghost predicate Compressible(ws: seq<Word>) {
    exists i, j :: 0 <= i < j < |ws| && j == i + 1 && ws[i] == ws[j] && ws[i] in {0, FULL}
  }

  lemma {:induction false} RunsAreShort(v: bool, bits: nat)
    requires bits % 14 == 0 && bits >= 28
    ensures |Digits(v, bits)| < bits / 14
  {
    DigitsAreFew(v, bits);
    if bits < BASE {
      assert Digits(v, bits / BASE) == [];
    }
  }

  lemma {:induction false} CodeLength(ts: seq<Token>)
    requires Maximal(ts)
    ensures |EmitAll(ts)| <= |ExpandAll(ts)|
    ensures |EmitAll(ts)| < |ExpandAll(ts)| <==> exists i :: 0 <= i < |ts| && ts[i].Run?
  {
    if ts != [] {
      CodeLength(ts[1..]);
      if ts[0].Run? {
        RunsAreShort(ts[0].value, ts[0].bits);
      } else if i :| 0 <= i < |ts| && ts[i].Run? {
        assert ts[1..][i - 1].Run?;
      }
    }
  }

  lemma {:induction false} RunsAreCompressible(ts: seq<Token>)
    requires Maximal(ts)
    ensures (exists i :: 0 <= i < |ts| && ts[i].Run?) <==> Compressible(ExpandAll(ts))
  {
    if ts != [] {
      var a, rest := Expand(ts[0]), ts[1..];
      var b, ws := ExpandAll(rest), ExpandAll(ts);
      RunsAreCompressible(rest);
      assert forall i :: 0 <= i < |rest| ==> rest[i] == ts[i + 1];
      if ts[0].Run? {
        assert ws[0] == ws[1] == Uniform(ts[0].value);
      } else {
        FirstWord(ts);
        if rest != [] {
          FirstWord(rest);
          assert !Alike(ts[0], ts[1]);
        }
        CompressibleFrom(a[0], b);
        assert [a[0]] + b == ws;
      }
    }
  }

  lemma CompressibleFrom(w: Word, ws: seq<Word>)
    requires ws != [] && w in {0, FULL} ==> w != ws[0]
    ensures Compressible([w] + ws) <==> Compressible(ws)
  {
    var all := [w] + ws;
    if i, j :| 0 <= i < j < |all| && j == i + 1 && all[i] == all[j] && all[i] in {0, FULL} {
      assert ws[i - 1] == ws[j - 1];
    }
    if i, j :| 0 <= i < j < |ws| && j == i + 1 && ws[i] == ws[j] && ws[i] in {0, FULL} {
      assert all[i + 1] == all[j + 1];
    }
  }

  /** A bitmap never gets longer, and it gets shorter exactly if two equal uniform words stand
      side by side in it. */
  lemma {:induction false} CodeIsShorterExactly(ws: seq<Word>)
    requires Clean(ws)
    ensures |Encode(ws)| <= |ws|
    ensures |Encode(ws)| < |ws| <==> Compressible(ws)
  {
    var ts := Tokens(ws, false, 0);
    TokensAreMaximal(ws, false, 0);
    ExpandTokens(ws, false, 0);
    assert Repeat(false, 0) + ws == ws;
    CodeLength(ts);
    RunsAreCompressible(ts);
  }
}

/** Enumerating the set bits of a plain bitmap (Sylar/DataStructure/bitmap.cc). */
module BitmapPositions {
  import opened Bits
  import opened BitmapCodec
  import opened Bitmaps

  // ---------------------------------------------------------------- what is to be enumerated

  /** The set positions below `end`, lowest first. */
  function Ascending(ws: seq<Word>, end: nat): seq<nat>
    requires end <= VALUE_SIZE * |ws|
  {
    if end == 0 then []
    else if IsSet(ws, end - 1) then Ascending(ws, end - 1) + [end - 1]
    else Ascending(ws, end - 1)
  }

  /** The set positions below `end`, highest first. */
  function Descending(ws: seq<Word>, end: nat): seq<nat>
    requires end <= VALUE_SIZE * |ws|
  {
    if end == 0 then []
    else if IsSet(ws, end - 1) then [end - 1] + Descending(ws, end - 1)
    else Descending(ws, end - 1)
  }

  /** The list holds the set positions, each once and in order, and nothing else. */
  lemma {:induction false} AscendingIsExact(ws: seq<Word>, end: nat)
    requires end <= VALUE_SIZE * |ws|
    ensures forall p: nat :: p in Ascending(ws, end) <==> p < end && IsSet(ws, p)
    ensures forall i, j :: 0 <= i < j < |Ascending(ws, end)| ==> Ascending(ws, end)[i] < Ascending(ws, end)[j]
  {
    if end > 0 {
      AscendingIsExact(ws, end - 1);
      var ps := Ascending(ws, end - 1);
      assert forall i :: 0 <= i < |ps| ==> ps[i] in ps;
    }
  }

  predicate IsReverse(d: seq<nat>, a: seq<nat>) {
    |d| == |a| && forall i :: 0 <= i < |a| ==> d[i] == a[|a| - 1 - i]
  }

  lemma ReverseMore(d: seq<nat>, a: seq<nat>, x: nat)
    requires IsReverse(d, a)
    ensures IsReverse([x] + d, a + [x])
  {
  }

  lemma {:induction false} DescendingIsReverse(ws: seq<Word>, end: nat)
    requires end <= VALUE_SIZE * |ws|
    ensures IsReverse(Descending(ws, end), Ascending(ws, end))
  {
    if end > 0 {
      DescendingIsReverse(ws, end - 1);
      ReverseMore(Descending(ws, end - 1), Ascending(ws, end - 1), end - 1);
    }
  }

  predicate AllClear(ws: seq<Word>, from: nat, end: nat) {
    end <= VALUE_SIZE * |ws| && forall p :: from <= p < end ==> !IsSet(ws, p)
  }

  /** Clear bits can be skipped. */
  lemma {:induction false} SkipClear(ws: seq<Word>, from: nat, end: nat)
    requires from <= end && AllClear(ws, from, end)
    ensures Ascending(ws, end) == Ascending(ws, from)
    ensures Descending(ws, end) == Descending(ws, from)
    decreases end
  {
    if from != end {
      SkipClear(ws, from, end - 1);
    }
  }

  lemma ZeroWordIsClear(ws: seq<Word>, i: nat)
    requires i < |ws| && ws[i] == 0
    ensures AllClear(ws, VALUE_SIZE * i, VALUE_SIZE * (i + 1))
  {
    forall p | VALUE_SIZE * i <= p < VALUE_SIZE * (i + 1)
      ensures !IsSet(ws, p)
    {
      assert p / VALUE_SIZE == i;
      BitZero(p % VALUE_SIZE);
    }
  }

  lemma ZeroChunkIsClear(ws: seq<Word>, at: nat)
    requires at + WORDS_PER_CHUNK <= |ws| && Pack(ws[at..at + WORDS_PER_CHUNK]) == 0
    ensures AllClear(ws, VALUE_SIZE * at, VALUE_SIZE * (at + WORDS_PER_CHUNK))
  {
    PackIsZero(ws[at..at + WORDS_PER_CHUNK]);
    forall p | VALUE_SIZE * at <= p < VALUE_SIZE * (at + WORDS_PER_CHUNK)
      ensures !IsSet(ws, p)
    {
      var i := p / VALUE_SIZE;
      assert ws[at..at + WORDS_PER_CHUNK][i - at] == 0;
      BitZero(p % VALUE_SIZE);
    }
  }

  lemma {:induction false} AscendingPrefix(ws: seq<Word>, a: nat, b: nat)
    requires a <= b <= VALUE_SIZE * |ws|
    ensures Ascending(ws, a) <= Ascending(ws, b)
    decreases b
  {
    if a < b {
      AscendingPrefix(ws, a, b - 1);
    }
  }

  // ---------------------------------------------------------------- callbacks

  /** A callback decides from all the positions that it has been given so far, the last one
      included, whether it wants more. */
  type Callback = seq<nat> -> bool

  predicate AllKept(visited: seq<nat>, keep: Callback) {
    forall n :: 0 < n <= |visited| ==> keep(visited[..n])
  }

  /** The callback has been given the positions in order, until it first wanted no more. */
  predicate Visits(ps: seq<nat>, keep: Callback, visited: seq<nat>) {
    && visited <= ps
    && (forall n :: 0 < n < |visited| ==> keep(visited[..n]))
    && (|visited| < |ps| ==> visited != [] && !keep(visited))
  }

  lemma VisitsIsFunctional(ps: seq<nat>, keep: Callback, a: seq<nat>, b: seq<nat>)
    requires Visits(ps, keep, a) && Visits(ps, keep, b)
    ensures a == b
  {
    var n := if |a| < |b| then |a| else |b|;
    assert a[..n] == b[..n] && a[..|a|] == a && b[..|b|] == b;
  }

  lemma VisitMore(visited: seq<nat>, p: nat, keep: Callback)
    requires AllKept(visited, keep)
    ensures keep(visited + [p]) ==> AllKept(visited + [p], keep)
    ensures forall n :: 0 < n < |visited| + 1 ==> keep((visited + [p])[..n])
  {
    var more := visited + [p];
    forall n | 0 < n <= |more|
      ensures n < |more| ==> keep(more[..n])
      ensures n == |more| ==> more[..n] == more
    {
      if n < |more| {
        assert more[..n] == visited[..n];
      }
    }
  }

  // ---------------------------------------------------------------- upwards

  lemma {:induction false} BitAt(ws: seq<Word>, i: nat, n: nat)
    requires i < |ws| && n < VALUE_SIZE
    ensures VALUE_SIZE * i + n < VALUE_SIZE * |ws| && IsSet(ws, VALUE_SIZE * i + n) == Bit(ws[i], n)
  {
    assert (VALUE_SIZE * i + n) / VALUE_SIZE == i;
  }

  /** Offers a position to the callback if its bit is set. */
  method Offer(present: bool, p: nat, keep: Callback, given: seq<nat>, ghost ws: seq<Word>)
    returns (visited: seq<nat>, stopped: bool)
    requires p < VALUE_SIZE * |ws| && present == IsSet(ws, p)
    requires given == Ascending(ws, p) && AllKept(given, keep)
    ensures visited == Ascending(ws, p + 1)
    ensures if stopped then visited != [] && !keep(visited) else AllKept(visited, keep)
    ensures forall n :: 0 < n < |visited| ==> keep(visited[..n])
  {
    if present {
      VisitMore(given, p, keep);
      visited := given + [p];
      stopped := !keep(visited);
    } else {
      visited, stopped := given, false;
    }
  }

  /** The bit loop of `foreach` over one word. */
  method ScanUp(w: Word, i: nat, size: nat, keep: Callback, given: seq<nat>, ghost ws: seq<Word>)
    returns (position: nat, visited: seq<nat>, stopped: bool)
    requires i < |ws| && w == ws[i] && VALUE_SIZE * i < size <= VALUE_SIZE * |ws|
    requires given == Ascending(ws, VALUE_SIZE * i) && AllKept(given, keep)
    ensures !stopped ==> position == if VALUE_SIZE * (i + 1) <= size then VALUE_SIZE * (i + 1) else size
    ensures !stopped ==> visited == Ascending(ws, position) && AllKept(visited, keep)
    ensures stopped ==> Visits(Ascending(ws, size), keep, visited)
  {
    position, visited, stopped := VALUE_SIZE * i, given, false;
    var n := 0;
    while n < VALUE_SIZE && position < size
      invariant 0 <= n <= VALUE_SIZE && position == VALUE_SIZE * i + n <= size
      invariant visited == Ascending(ws, position) && AllKept(visited, keep)
    {
      BitAt(ws, i, n);
      visited, stopped := Offer(Bit(w, n), position, keep, visited, ws);
      if stopped {
        AscendingPrefix(ws, position + 1, size);
        return;
      }
      n, position := n + 1, position + 1;
    }
  }

  ghost predicate ScanningUp(ws: seq<Word>, size: nat, keep: Callback, position: nat, visited: seq<nat>, i: nat) {
    && size <= VALUE_SIZE * |ws| && i <= |ws| && AllKept(visited, keep)
    && (if VALUE_SIZE * i < size then position == VALUE_SIZE * i && visited == Ascending(ws, position)
        else visited == Ascending(ws, size))
  }

  /** A turn of the word loop. */
  method WordUp(w: Word, i: nat, size: nat, keep: Callback, from: nat, given: seq<nat>, ghost ws: seq<Word>)
    returns (position: nat, visited: seq<nat>, stopped: bool)
    requires i < |ws| && w == ws[i] && VALUE_SIZE * i < size && ScanningUp(ws, size, keep, from, given, i)
    ensures !stopped ==> ScanningUp(ws, size, keep, position, visited, i + 1)
    ensures stopped ==> Visits(Ascending(ws, size), keep, visited)
  {
    if w == 0 {
      ZeroWordIsClear(ws, i);
      var end := if VALUE_SIZE * (i + 1) <= size then VALUE_SIZE * (i + 1) else size;
      SkipClear(ws, VALUE_SIZE * i, end);
      return from + VALUE_SIZE, given, false;
    }
    position, visited, stopped := ScanUp(w, i, size, keep, given, ws);
  }

  /** `foreach`: a zero block of four words is skipped, and so is a zero word after the blocks. */
  method Foreach(b: Bitmap, keep: Callback) returns (visited: seq<nat>)
    requires b.data.Length == WordCount(b.size)
    ensures Visits(Ascending(b.data[..], b.size), keep, visited)
  {
    ghost var ws := b.data[..];
    var chunks, position, stopped := b.size / BITS_PER_CHUNK, 0, false;
    visited := [];
    var i := 0;
    while i < chunks
      invariant 0 <= i <= chunks
      invariant ScanningUp(ws, b.size, keep, position, visited, WORDS_PER_CHUNK * i)
    {
      position, visited, stopped := ChunkUp(b.data, b.size, i * WORDS_PER_CHUNK, keep, position, visited);
      if stopped {
        return;
      }
      i := i + 1;
    }
    i := chunks * WORDS_PER_CHUNK;
    while i < b.data.Length
      invariant 0 <= i <= b.data.Length
      invariant ScanningUp(ws, b.size, keep, position, visited, i)
    {
      position, visited, stopped := WordUp(b.data[i], i, b.size, keep, position, visited, ws);
      if stopped {
        return;
      }
      i := i + 1;
    }
  }

  method ChunkUp(data: array<Word>, size: nat, at: nat, keep: Callback, from: nat, given: seq<nat>)
    returns (position: nat, visited: seq<nat>, stopped: bool)
    requires at + WORDS_PER_CHUNK <= data.Length && VALUE_SIZE * (at + WORDS_PER_CHUNK) <= size
    requires ScanningUp(data[..], size, keep, from, given, at)
    ensures !stopped ==> ScanningUp(data[..], size, keep, position, visited, at + WORDS_PER_CHUNK)
    ensures stopped ==> Visits(Ascending(data[..], size), keep, visited)
  {
    ghost var ws := data[..];
    assert data[at..at + WORDS_PER_CHUNK] == ws[at..at + WORDS_PER_CHUNK];
    if Pack(data[at..at + WORDS_PER_CHUNK]) == 0 {
      ZeroChunkIsClear(ws, at);
      SkipClear(ws, VALUE_SIZE * at, VALUE_SIZE * (at + WORDS_PER_CHUNK));
      return from + BITS_PER_CHUNK, given, false;
    }
    position, visited, stopped := WordsUp(data, size, at, keep, from, given);
  }

  method WordsUp(data: array<Word>, size: nat, at: nat, keep: Callback, from: nat, given: seq<nat>)
    returns (position: nat, visited: seq<nat>, stopped: bool)
    requires at + WORDS_PER_CHUNK <= data.Length && VALUE_SIZE * (at + WORDS_PER_CHUNK) <= size
    requires ScanningUp(data[..], size, keep, from, given, at)
    ensures !stopped ==> ScanningUp(data[..], size, keep, position, visited, at + WORDS_PER_CHUNK)
    ensures stopped ==> Visits(Ascending(data[..], size), keep, visited)
  {
    ghost var ws := data[..];
    position, visited, stopped := from, given, false;
    var i := at;
    while i < at + WORDS_PER_CHUNK
      invariant at <= i <= at + WORDS_PER_CHUNK
      invariant ScanningUp(ws, size, keep, position, visited, i)
    {
      position, visited, stopped := ScanUp(data[i], i, size, keep, visited, ws);
      if stopped {
        return;
      }
      i := i + 1;
    }
  }

  /** `listPosAsc`, which is `foreach` with a callback that wants every position. */
  method ListPosAsc(b: Bitmap) returns (ps: seq<nat>)
    requires b.data.Length == WordCount(b.size)
    ensures ps == Ascending(b.data[..], b.size)
  {
    ps := Foreach(b, _ => true);
  }

  // ---------------------------------------------------------------- downwards

  /** `rforeach` starts at the bit of index `size` when the last word is not full. */
  function Top(size: nat): nat {
    if size % VALUE_SIZE == 0 then size else size + 1
  }

  /** The downward scan stands before position `p`. */
  ghost predicate ScanningDown(ws: seq<Word>, top: nat, keep: Callback, visited: seq<nat>, p: nat) {
    && p <= top <= VALUE_SIZE * |ws| && AllKept(visited, keep)
    && visited + Descending(ws, p) == Descending(ws, top)
  }

  /** Offers the position below `p`. */
  method OfferDown(present: bool, p: nat, top: nat, keep: Callback, given: seq<nat>, ghost ws: seq<Word>)
    returns (visited: seq<nat>, stopped: bool)
    requires p > 0 && ScanningDown(ws, top, keep, given, p) && present == IsSet(ws, p - 1)
    ensures if stopped then Visits(Descending(ws, top), keep, visited)
      else ScanningDown(ws, top, keep, visited, p - 1)
  {
    if present {
      VisitMore(given, p - 1, keep);
      visited := given + [p - 1];
      stopped := !keep(visited);
      assert visited + Descending(ws, p - 1) == given + Descending(ws, p);
    } else {
      visited, stopped := given, false;
    }
  }

  /** The bit loop over the lowest `bits` bits of one word. */
  method ScanDown(w: Word, i: nat, bits: nat, from: int, top: nat, keep: Callback, given: seq<nat>, ghost ws: seq<Word>)
    returns (position: int, visited: seq<nat>, stopped: bool)
    requires i < |ws| && w == ws[i] && bits <= VALUE_SIZE && from == VALUE_SIZE * i + bits - 1
    requires ScanningDown(ws, top, keep, given, VALUE_SIZE * i + bits)
    ensures if stopped then Visits(Descending(ws, top), keep, visited)
      else position == VALUE_SIZE * i - 1 && ScanningDown(ws, top, keep, visited, VALUE_SIZE * i)
  {
    position, visited, stopped := from, given, false;
    var n := bits;
    while n > 0
      invariant 0 <= n <= bits && position == VALUE_SIZE * i + n - 1
      invariant ScanningDown(ws, top, keep, visited, VALUE_SIZE * i + n)
    {
      BitAt(ws, i, n - 1);
      visited, stopped := OfferDown(Bit(w, n - 1), position + 1, top, keep, visited, ws);
      if stopped {
        return;
      }
      n, position := n - 1, position - 1;
    }
  }

  method WordDown(w: Word, i: nat, from: int, top: nat, keep: Callback, given: seq<nat>, ghost ws: seq<Word>)
    returns (position: int, visited: seq<nat>, stopped: bool)
    requires i < |ws| && w == ws[i] && from == VALUE_SIZE * (i + 1) - 1
    requires ScanningDown(ws, top, keep, given, VALUE_SIZE * (i + 1))
    ensures if stopped then Visits(Descending(ws, top), keep, visited)
      else position == VALUE_SIZE * i - 1 && ScanningDown(ws, top, keep, visited, VALUE_SIZE * i)
  {
    if w == 0 {
      ZeroWordIsClear(ws, i);
      SkipClear(ws, VALUE_SIZE * i, VALUE_SIZE * (i + 1));
      return from - VALUE_SIZE, given, false;
    }
    position, visited, stopped := ScanDown(w, i, VALUE_SIZE, from, top, keep, given, ws);
  }

  /** The last word when it is not full: the scan of a word that is not zero starts one bit
      above the size. */
  method LastWordDown(w: Word, size: nat, from: int, keep: Callback, ghost ws: seq<Word>)
    returns (position: int, visited: seq<nat>, stopped: bool)
    requires size % VALUE_SIZE != 0 && |ws| == WordCount(size) && w == ws[|ws| - 1] && from == size - 1
    ensures if stopped then Visits(Descending(ws, Top(size)), keep, visited)
      else
        && position == VALUE_SIZE * (|ws| - 1) - 1
        && ScanningDown(ws, Top(size), keep, visited, VALUE_SIZE * (|ws| - 1))
  {
    assert size == VALUE_SIZE * (|ws| - 1) + size % VALUE_SIZE;
    if w == 0 {
      ZeroWordIsClear(ws, |ws| - 1);
      SkipClear(ws, VALUE_SIZE * (|ws| - 1), size + 1);
      return from - size % VALUE_SIZE, [], false;
    }
    position, visited, stopped := ScanDown(
      w, size / VALUE_SIZE, size % VALUE_SIZE + 1, from + 1, Top(size), keep, [], ws);
  }

  method ChunkDown(data: array<Word>, at: nat, from: int, top: nat, keep: Callback, given: seq<nat>)
    returns (position: int, visited: seq<nat>, stopped: bool)
    requires at + WORDS_PER_CHUNK <= data.Length && from == VALUE_SIZE * (at + WORDS_PER_CHUNK) - 1
    requires ScanningDown(data[..], top, keep, given, VALUE_SIZE * (at + WORDS_PER_CHUNK))
    ensures if stopped then Visits(Descending(data[..], top), keep, visited)
      else position == VALUE_SIZE * at - 1 && ScanningDown(data[..], top, keep, visited, VALUE_SIZE * at)
  {
    ghost var ws := data[..];
    assert data[at..at + WORDS_PER_CHUNK] == ws[at..at + WORDS_PER_CHUNK];
    if Pack(data[at..at + WORDS_PER_CHUNK]) == 0 {
      ZeroChunkIsClear(ws, at);
      SkipClear(ws, VALUE_SIZE * at, VALUE_SIZE * (at + WORDS_PER_CHUNK));
      return from - BITS_PER_CHUNK, given, false;
    }
    position, visited, stopped := AllWordsDown(data, at, from, top, keep, given);
  }

  method AllWordsDown(data: array<Word>, at: nat, from: int, top: nat, keep: Callback, given: seq<nat>)
    returns (position: int, visited: seq<nat>, stopped: bool)
    requires at + WORDS_PER_CHUNK <= data.Length && from == VALUE_SIZE * (at + WORDS_PER_CHUNK) - 1
    requires ScanningDown(data[..], top, keep, given, VALUE_SIZE * (at + WORDS_PER_CHUNK))
    ensures if stopped then Visits(Descending(data[..], top), keep, visited)
      else position == VALUE_SIZE * at - 1 && ScanningDown(data[..], top, keep, visited, VALUE_SIZE * at)
  {
    ghost var ws := data[..];
    position, visited, stopped := from, given, false;
    var i := at + WORDS_PER_CHUNK;
    while i > at
      invariant at <= i <= at + WORDS_PER_CHUNK && position == VALUE_SIZE * i - 1
      invariant ScanningDown(ws, top, keep, visited, VALUE_SIZE * i)
    {
      i := i - 1;
      position, visited, stopped := ScanDown(data[i], i, VALUE_SIZE, position, top, keep, visited, ws);
      if stopped {
        return;
      }
    }
  }

  /** The full words from `i` down to `end`. */
  method WordsDown(data: array<Word>, i: nat, end: nat, from: int, top: nat, keep: Callback, given: seq<nat>)
    returns (position: int, visited: seq<nat>, stopped: bool)
    requires end <= i <= data.Length && from == VALUE_SIZE * i - 1
    requires ScanningDown(data[..], top, keep, given, VALUE_SIZE * i)
    ensures if stopped then Visits(Descending(data[..], top), keep, visited)
      else position == VALUE_SIZE * end - 1 && ScanningDown(data[..], top, keep, visited, VALUE_SIZE * end)
  {
    ghost var ws := data[..];
    position, visited, stopped := from, given, false;
    var n := i;
    while n > end
      invariant end <= n <= i && position == VALUE_SIZE * n - 1
      invariant ScanningDown(ws, top, keep, visited, VALUE_SIZE * n)
    {
      position, visited, stopped := WordDown(data[n - 1], n - 1, position, top, keep, visited, ws);
      if stopped {
        return;
      }
      n := n - 1;
    }
  }

  /** The blocks below the `i`th. */
  method BlocksDown(data: array<Word>, i: nat, from: int, top: nat, keep: Callback, given: seq<nat>)
    returns (visited: seq<nat>)
    requires WORDS_PER_CHUNK * i <= data.Length && from == BITS_PER_CHUNK * i - 1
    requires ScanningDown(data[..], top, keep, given, BITS_PER_CHUNK * i)
    ensures Visits(Descending(data[..], top), keep, visited)
  {
    var position, stopped, n := from, false, i;
    visited := given;
    while n > 0
      invariant 0 <= n <= i && position == BITS_PER_CHUNK * n - 1
      invariant ScanningDown(data[..], top, keep, visited, BITS_PER_CHUNK * n)
    {
      position, visited, stopped := ChunkDown(data, (n - 1) * WORDS_PER_CHUNK, position, top, keep, visited);
      if stopped {
        return;
      }
      n := n - 1;
    }
  }

  lemma StartDown(ws: seq<Word>, top: nat, keep: Callback)
    requires top <= VALUE_SIZE * |ws|
    ensures ScanningDown(ws, top, keep, [], top)
  {
    assert [] + Descending(ws, top) == Descending(ws, top);
  }

  /** The full words below the `i`th: one by one down to the blocks, and then block by block. */
  method FullDown(data: array<Word>, i: nat, blocks: nat, from: int, top: nat, keep: Callback, given: seq<nat>)
    returns (visited: seq<nat>)
    requires WORDS_PER_CHUNK * blocks <= i <= data.Length && from == VALUE_SIZE * i - 1
    requires ScanningDown(data[..], top, keep, given, VALUE_SIZE * i)
    ensures Visits(Descending(data[..], top), keep, visited)
  {
    var position, stopped;
    position, visited, stopped := WordsDown(data, i, blocks * WORDS_PER_CHUNK, from, top, keep, given);
    if stopped {
      return;
    }
    visited := BlocksDown(data, blocks, position, top, keep, visited);
  }

  lemma BlocksFit(size: nat)
    ensures WORDS_PER_CHUNK * (size / BITS_PER_CHUNK) <= size / VALUE_SIZE <= WordCount(size)
    ensures size % VALUE_SIZE == 0 ==> size == VALUE_SIZE * WordCount(size)
    ensures size % VALUE_SIZE != 0 ==>
      WordCount(size) == size / VALUE_SIZE + 1 && Top(size) <= VALUE_SIZE * WordCount(size)
  {
  }

  /** `rforeach`. */
  method Rforeach(b: Bitmap, keep: Callback) returns (visited: seq<nat>)
    requires b.data.Length == WordCount(b.size)
    ensures Visits(Descending(b.data[..], Top(b.size)), keep, visited)
  {
    BlocksFit(b.size);
    var blocks, i, top := b.size / BITS_PER_CHUNK, b.data.Length, Top(b.size);
    var position, stopped := b.size - 1, false;
    visited := [];
    StartDown(b.data[..], top, keep);
    if b.size % VALUE_SIZE != 0 {
      position, visited, stopped := LastWordDown(b.data[i - 1], b.size, position, keep, b.data[..]);
      if stopped {
        return;
      }
      i := i - 1;
    }
    visited := FullDown(b.data, i, blocks, position, top, keep, visited);
  }

  /** `rforeach` gives the set positions below the size, highest first, if and only if the
      last word is full or its first unused bit is clear. */
  lemma {:induction false} RforeachIsReverseExactly(ws: seq<Word>, size: nat)
    requires |ws| == WordCount(size)
    ensures Descending(ws, Top(size)) == Descending(ws, size)
      <==> size % VALUE_SIZE == 0 || !IsSet(ws, size)
  {
  }

  /** A bitmap of one bit whose complement was taken while it was compressed: `rforeach`
      gives position 1, which the bitmap does not have. */
  lemma {:induction false} RforeachLeavesTheBitmap()
    ensures var ws := Decode(FlipAll(Encode([0]))); |ws| == WordCount(1) && 1 in Descending(ws, Top(1))
  {
    RoundTrip([0]);
    FlipDecodesToComplement(Encode([0]));
    var ws := Decode(FlipAll(Encode([0])));
    assert ws == [FULL];
    assert Bit(FULL, 1);
    assert IsSet(ws, 1);
    assert Descending(ws, 2)[0] == 1;
  }

  // ---------------------------------------------------------------- sets of positions

  /** To combine words is to intersect and to unite the sets of their positions, and to complement
      them is to complement the set. */
  lemma {:induction false} AlgebraOfSets(a: seq<Word>, b: seq<Word>, p: nat)
    requires |a| == |b| && p < VALUE_SIZE * |a|
    ensures IsSet(Zip(AndWord, a, b), p) <==> IsSet(a, p) && IsSet(b, p)
    ensures IsSet(Zip(OrWord, a, b), p) <==> IsSet(a, p) || IsSet(b, p)
    ensures Clean(a) ==> (IsSet(ComplementAll(a), p) <==> !IsSet(a, p))
  {
    var w, i := p / VALUE_SIZE, p % VALUE_SIZE;
    BitAnd(a[w], b[w], i);
    BitOr(a[w], b[w], i);
    if Clean(a) {
      ComplementFlipsBits(a[w], i);
    }
  }

  /** Plain bitmaps cross exactly if a position is set in both. */
  lemma {:induction false} MeetExactly(a: seq<Word>, b: seq<Word>)
    requires |a| == |b| && Clean(a)
    ensures Meet(AndWord, a, b) <==> exists p :: 0 <= p < VALUE_SIZE * |a| && IsSet(a, p) && IsSet(b, p)
  {
    if k :| 0 <= k < |a| && AndWord(a[k], b[k]) != 0 {
      var i := SomeBit(AndWord(a[k], b[k]));
      var p := VALUE_SIZE * k + i;
      BitAnd(a[k], b[k], i);
      assert p / VALUE_SIZE == k && p % VALUE_SIZE == i;
      assert IsSet(a, p) && IsSet(b, p);
    }
    if p :| 0 <= p < VALUE_SIZE * |a| && IsSet(a, p) && IsSet(b, p) {
      var k, i := p / VALUE_SIZE, p % VALUE_SIZE;
      BitAnd(a[k], b[k], i);
      BitZero(i);
      assert AndWord(a[k], b[k]) != 0;
    }
  }

  /** A word of fourteen bits that is not zero has a bit set. */
  lemma {:induction false} SomeBit(w: Word) returns (i: nat)
    requires 0 < w < BASE
    ensures i < VALUE_SIZE && Bit(w, i)
  {
    Pow2Values();
    if forall k :: 0 <= k < 14 ==> !Bit(w, k) {
      NoBitsIsZero(14, w);
    }
    i :| 0 <= i < 14 && Bit(w, i);
  }
}

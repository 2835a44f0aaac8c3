/** The two iterators of a plain bitmap (Sylar/DataStructure/bitmap.cc). */
module BitmapIterators {
  import opened Prelude
  import opened Bits
  import opened BitmapCodec
  import opened Bitmaps
  import opened BitmapPositions

  /** Positions are 32-bit signed, and a scan may end as far as one word past the size. */
  const MAX_POSITION := 0x7FFF_FFFF

  predicate Fits(size: nat) {
    VALUE_SIZE * WordCount(size) <= MAX_POSITION
  }

  /** No set position lies strictly between the two. */
  predicate NoneBetween(ws: seq<Word>, below: int, above: int, size: nat)
    requires size <= VALUE_SIZE * |ws|
  {
    forall p: nat :: below < p < above && p < size ==> !IsSet(ws, p)
  }

  lemma {:induction false} NextAscends(ws: seq<Word>, below: int, p: nat, size: nat)
    requires p < size <= VALUE_SIZE * |ws| && -1 <= below < p
    requires IsSet(ws, p) && NoneBetween(ws, below, p, size)
    ensures Ascending(ws, p + 1) == Ascending(ws, below + 1) + [p]
  {
    SkipClear(ws, below + 1, p);
  }

  class Iterator {
    var pos: int
    const size: nat
    const data: array<Word>

    predicate Valid()
      reads this
    {
      data.Length == WordCount(size) && Fits(size) && -1 <= pos
    }

    constructor (b: Bitmap)
      requires b.data.Length == WordCount(b.size) && Fits(b.size)
      ensures Valid() && data == b.data && size == b.size
      ensures 0 <= pos && NoneBetween(data[..], -1, pos, size) && (pos < size ==> IsSet(data[..], pos))
    {
      pos := -1;
      size := b.size;
      data := b.data;
      new;
      Next();
    }

    /** `operator!`, which is true while there is a position. */
    predicate HasPosition()
      reads this
    {
      0 <= pos < size
    }

    /** Moves to the next set position, or past the size if there is none. */
    method Next()
      requires Valid() && (pos == -1 || HasPosition())
      modifies this
      ensures Valid() && old(pos) < pos <= VALUE_SIZE * WordCount(size)
      ensures NoneBetween(data[..], old(pos), pos, size)
      ensures pos < size ==> IsSet(data[..], pos)
    {
      var start, found := pos + 1, false;
      pos := start;
      if pos % VALUE_SIZE != 0 {
        found := ScanWord(pos / VALUE_SIZE, start - 1);
        if found {
          return;
        }
      }
      SkipWords(start);
    }

    /** The loop over the words: from the start of one, or from the size. */
    method SkipWords(ghost start: nat)
      requires Valid() && start <= pos <= VALUE_SIZE * data.Length && NoneBetween(data[..], start - 1, pos, size)
      requires pos < size ==> pos % VALUE_SIZE == 0
      modifies this
      ensures Valid() && start <= pos <= VALUE_SIZE * data.Length && NoneBetween(data[..], start - 1, pos, size)
      ensures pos < size ==> IsSet(data[..], pos)
    {
      var i := pos / VALUE_SIZE;
      while i < data.Length && pos < size
        invariant start <= pos <= VALUE_SIZE * data.Length && Valid()
        invariant pos < size ==> pos == VALUE_SIZE * i
        invariant NoneBetween(data[..], start - 1, pos, size)
      {
        if data[i] == 0 {
          ZeroWordIsClear(data[..], i);
          pos := pos + VALUE_SIZE;
        } else {
          var found := ScanWord(i, start - 1);
          if found {
            return;
          }
        }
        i := i + 1;
      }
    }

    /** The bit loops: from the current position to the end of its word. */
    method ScanWord(i: nat, ghost below: int) returns (found: bool)
      requires Valid() && i < data.Length && VALUE_SIZE * i <= pos < VALUE_SIZE * (i + 1) && pos <= size
      requires NoneBetween(data[..], below, pos, size)
      modifies this
      ensures Valid() && old(pos) <= pos && NoneBetween(data[..], below, pos, size)
      ensures found ==> pos < size && IsSet(data[..], pos)
      ensures !found ==> pos == if VALUE_SIZE * (i + 1) <= size then VALUE_SIZE * (i + 1) else size
    {
      var n := pos - VALUE_SIZE * i;
      while n < VALUE_SIZE && pos < size
        invariant 0 <= n <= VALUE_SIZE && pos == VALUE_SIZE * i + n <= size
        invariant Valid() && old(pos) <= pos && NoneBetween(data[..], below, pos, size)
      {
        BitAt(data[..], i, n);
        if Bit(data[i], n) {
          return true;
        }
        n, pos := n + 1, pos + 1;
      }
      return false;
    }
  }

  /** Walking with the iterator meets what `foreach` meets. */
  method Walk(b: Bitmap) returns (ps: seq<nat>)
    requires b.data.Length == WordCount(b.size) && Fits(b.size)
    ensures ps == Ascending(b.data[..], b.size)
  {
    var it := new Iterator(b);
    ghost var ws, below := b.data[..], -1;
    ps := [];
    while it.HasPosition()
      invariant it.Valid() && it.data == b.data && it.size == b.size && -1 <= below < it.pos && below < b.size
      invariant b.data[..] == ws && fresh(it)
      invariant NoneBetween(ws, below, it.pos, b.size) && (it.pos < b.size ==> IsSet(ws, it.pos))
      invariant ps == Ascending(ws, below + 1)
      decreases VALUE_SIZE * |ws| - it.pos
    {
      NextAscends(ws, below, it.pos, b.size);
      ps := ps + [it.pos];
      below := it.pos;
      it.Next();
    }
    SkipClear(ws, below + 1, b.size);
  }

  class ReverseIterator {
    var pos: int
    const size: nat
    const data: array<Word>

    predicate Valid()
      reads this
    {
      data.Length == WordCount(size) && Fits(size) && -1 <= pos <= size
    }

    constructor (b: Bitmap)
      requires b.data.Length == WordCount(b.size) && Fits(b.size)
      ensures Valid() && data == b.data && size == b.size
      ensures pos < size && NoneBetween(data[..], pos, size, size) && (0 <= pos ==> IsSet(data[..], pos))
    {
      pos := b.size;
      size := b.size;
      data := b.data;
      new;
      Next();
    }

    predicate HasPosition()
      reads this
    {
      0 <= pos < size
    }

    /** Moves to the next lower set position, or to -1 if there is none. */
    method Next()
      requires Valid()
      modifies this
      ensures Valid() && (pos < old(pos) || pos == -1)
      ensures NoneBetween(data[..], pos, old(pos), size)
      ensures 0 <= pos ==> IsSet(data[..], pos)
    {
      if pos <= 0 {
        pos := -1;
        return;
      }
      ghost var above := pos;
      var found;
      pos := pos - 1;
      var i := pos / VALUE_SIZE;
      if pos % VALUE_SIZE != VALUE_SIZE - 1 {
        found := ScanWord(i, above);
        if found {
          return;
        }
        i := i - 1;
      }
      while i >= 0 && pos >= 0
        invariant -1 <= i < data.Length && pos == VALUE_SIZE * (i + 1) - 1 && pos < above <= size
        invariant Valid() && NoneBetween(data[..], pos, above, size)
        decreases i
      {
        if data[i] == 0 {
          ZeroWordIsClear(data[..], i);
          pos := pos - VALUE_SIZE;
        } else {
          found := ScanWord(i, above);
          if found {
            return;
          }
        }
        i := i - 1;
      }
    }

    /** The bit loops: from the current position down to the start of its word. */
    method ScanWord(i: nat, ghost above: int) returns (found: bool)
      requires Valid() && i < data.Length && VALUE_SIZE * i <= pos < VALUE_SIZE * (i + 1)
      requires pos < above <= size && NoneBetween(data[..], pos, above, size)
      modifies this
      ensures Valid() && pos <= old(pos) && NoneBetween(data[..], pos, above, size)
      ensures if found then 0 <= pos && IsSet(data[..], pos) else pos == VALUE_SIZE * i - 1
    {
      var n := pos - VALUE_SIZE * i;
      while n >= 0 && pos >= 0
        invariant -1 <= n < VALUE_SIZE && pos == VALUE_SIZE * i + n
        invariant Valid() && pos <= old(pos) && NoneBetween(data[..], pos, above, size)
        decreases n
      {
        BitAt(data[..], i, n);
        if Bit(data[i], n) {
          return true;
        }
        n, pos := n - 1, pos - 1;
      }
      return false;
    }
  }

  lemma {:induction false} NextDescends(ws: seq<Word>, ps: seq<nat>, p: nat, above: nat, size: nat)
    requires p < above <= size <= VALUE_SIZE * |ws|
    requires IsSet(ws, p) && NoneBetween(ws, p, above, size)
    ensures ps + Descending(ws, above) == (ps + [p]) + Descending(ws, p)
  {
    SkipClear(ws, p + 1, above);
    assert Descending(ws, above) == [p] + Descending(ws, p);
    Regroup(ps, [p], Descending(ws, p));
  }

  /** Walking with the reverse iterator meets the exact reverse; it never leaves the bitmap. */
  method WalkBack(b: Bitmap) returns (ps: seq<nat>)
    requires b.data.Length == WordCount(b.size) && Fits(b.size)
    ensures ps == Descending(b.data[..], b.size)
  {
    var it := new ReverseIterator(b);
    ghost var ws, above: nat := b.data[..], b.size;
    ps := [];
    ghost var all := Descending(ws, b.size);
    assert [] + Descending(ws, above) == all;
    while it.HasPosition()
      invariant it.Valid() && it.data == b.data && it.size == b.size && it.pos < above <= b.size
      invariant b.data[..] == ws && fresh(it)
      invariant NoneBetween(ws, it.pos, above, b.size) && (0 <= it.pos ==> IsSet(ws, it.pos))
      invariant ps + Descending(ws, above) == all
      decreases it.pos
    {
      NextDescends(ws, ps, it.pos, above, b.size);
      ps := ps + [it.pos];
      above := it.pos;
      it.Next();
    }
    SkipClear(ws, 0, above);
  }
}

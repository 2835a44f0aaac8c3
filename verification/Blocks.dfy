/** A flat byte sequence cut into blocks of equal size. */
module Blocks {
  import opened Prelude

  function Flat(blocks: seq<seq<byte>>): seq<byte> {
    if blocks == [] then [] else blocks[0] + Flat(blocks[1..])
  }

  predicate Even(blocks: seq<seq<byte>>, base: nat) {
    forall i :: 0 <= i < |blocks| ==> |blocks[i]| == base
  }

  /** Where block `i` starts. */
  function Start(i: nat, base: nat): nat {
    if i == 0 then 0 else Start(i - 1, base) + base
  }

  /** `flat` with `bytes` written over it from `at` on, byte by byte. */
  function Overwrite(flat: seq<byte>, at: nat, bytes: seq<byte>): (r: seq<byte>)
    requires at + |bytes| <= |flat|
    ensures |r| == |flat|
    decreases |bytes|
  {
    if bytes == [] then flat else Overwrite(flat[at := bytes[0]], at + 1, bytes[1..])
  }

  /** The same, all at once. */
  lemma {:induction false} OverwriteAtOnce(flat: seq<byte>, at: nat, bytes: seq<byte>)
    requires at + |bytes| <= |flat|
    ensures Overwrite(flat, at, bytes) == flat[..at] + bytes + flat[at + |bytes|..]
    decreases |bytes|
  {
    if bytes != [] {
      var next := flat[at := bytes[0]];
      OverwriteAtOnce(next, at + 1, bytes[1..]);
      assert next[..at + 1] == flat[..at] + [bytes[0]];
      assert bytes == [bytes[0]] + bytes[1..];
    }
  }

  lemma {:induction false} OverwriteNothing(flat: seq<byte>, at: nat)
    requires at <= |flat|
    ensures Overwrite(flat, at, []) == flat
  {
  }

  lemma OverwriteOn(flat: seq<byte>, at: nat, a: seq<byte>, b: seq<byte>)
    requires at + |a| + |b| <= |flat|
    ensures Overwrite(Overwrite(flat, at, a), at + |a|, b) == Overwrite(flat, at, a + b)
  {
    OverwriteAtOnce(flat, at, a);
    OverwriteAtOnce(Overwrite(flat, at, a), at + |a|, b);
    OverwriteAtOnce(flat, at, a + b);
  }

  lemma {:induction false} OverwriteMore(flat: seq<byte>, at: nat, data: seq<byte>, i: nat, j: nat, p: nat)
    requires i <= j <= |data| && at + |data| <= |flat| && p == at + i
    ensures Overwrite(Overwrite(flat, at, data[..i]), p, data[i..j]) == Overwrite(flat, at, data[..j])
  {
    OverwriteOn(flat, at, data[..i], data[i..j]);
    assert data[..i] + data[i..j] == data[..j];
  }

  lemma SliceMore(flat: seq<byte>, a: nat, b: nat, c: nat)
    requires a <= b <= c <= |flat|
    ensures flat[a..b] + flat[b..c] == flat[a..c]
  {
  }

  lemma OverwriteRight(a: seq<byte>, b: seq<byte>, at: nat, bytes: seq<byte>)
    requires at + |bytes| <= |b|
    ensures Overwrite(a + b, |a| + at, bytes) == a + Overwrite(b, at, bytes)
  {
    OverwriteAtOnce(a + b, |a| + at, bytes);
    OverwriteAtOnce(b, at, bytes);
  }

  lemma {:induction false} OverwriteLeft(a: seq<byte>, b: seq<byte>, at: nat, bytes: seq<byte>)
    requires at + |bytes| <= |a|
    ensures Overwrite(a + b, at, bytes) == Overwrite(a, at, bytes) + b
  {
    OverwriteAtOnce(a + b, at, bytes);
    OverwriteAtOnce(a, at, bytes);
  }

  lemma {:induction false} StartIsProduct(i: nat, base: nat)
    ensures Start(i, base) == base * i
  {
    if i > 0 {
      StartIsProduct(i - 1, base);
      assert base * i == base * (i - 1) + base;
    }
  }

  lemma {:induction false} StartAdds(i: nat, j: nat, base: nat)
    ensures Start(i + j, base) == Start(i, base) + Start(j, base)
    decreases j
  {
    if j > 0 {
      StartAdds(i, j - 1, base);
    }
  }

  lemma {:induction false} StartsApart(i: nat, j: nat, base: nat)
    requires i < j
    ensures Start(i, base) + base <= Start(j, base)
    decreases j
  {
    if i < j - 1 {
      StartsApart(i, j - 1, base);
    }
  }

  lemma {:induction false} FlatLength(blocks: seq<seq<byte>>, base: nat)
    requires Even(blocks, base)
    ensures |Flat(blocks)| == Start(|blocks|, base)
  {
    if blocks != [] {
      FlatLength(blocks[1..], base);
    }
  }

  lemma {:induction false} FlatAppend(a: seq<seq<byte>>, b: seq<seq<byte>>)
    ensures Flat(a + b) == Flat(a) + Flat(b)
  {
    if a == [] {
      assert a + b == b;
    } else {
      FlatAppend(a[1..], b);
      HeadAndTail(a, b);
      Regroup(a[0], Flat(a[1..]), Flat(b));
    }
  }

  lemma {:induction false} FlatPrefix(a: seq<seq<byte>>, b: seq<seq<byte>>)
    requires a <= b
    ensures Flat(a) <= Flat(b)
  {
    assert b == a + b[|a|..];
    FlatAppend(a, b[|a|..]);
  }

  /** Visible content after a write at a position within it: each byte replaces one, or is
      added at the end. */
  function Written(visible: seq<byte>, at: nat, data: seq<byte>): seq<byte>
    requires at <= |visible|
    decreases |data|
  {
    if data == [] then visible
    else Written(if at < |visible| then visible[at := data[0]] else visible + [data[0]], at + 1, data[1..])
  }

  /** The same, all at once. */
  lemma {:induction false} WrittenAtOnce(visible: seq<byte>, at: nat, data: seq<byte>)
    requires at <= |visible|
    ensures Written(visible, at, data)
      == visible[..at] + data + if at + |data| <= |visible| then visible[at + |data|..] else []
    decreases |data|
  {
    if data != [] {
      var next := if at < |visible| then visible[at := data[0]] else visible + [data[0]];
      WrittenAtOnce(next, at + 1, data[1..]);
      assert next[..at + 1] == visible[..at] + [data[0]];
      assert data == [data[0]] + data[1..];
      assert at + |data| <= |visible| ==> next[at + |data|..] == visible[at + |data|..];
    }
  }

  lemma {:induction false} WrittenTwice(visible: seq<byte>, at: nat, a: seq<byte>, b: seq<byte>)
    requires at <= |visible|
    ensures at + |a| <= |Written(visible, at, a)|
    ensures Written(Written(visible, at, a), at + |a|, b) == Written(visible, at, a + b)
    decreases |a|
  {
    if a == [] {
      assert a + b == b;
    } else {
      var next := if at < |visible| then visible[at := a[0]] else visible + [a[0]];
      WrittenTwice(next, at + 1, a[1..], b);
      assert (a + b)[0] == a[0] && (a + b)[1..] == a[1..] + b;
    }
  }

  lemma {:induction false} WrittenThen(
      was: seq<byte>, at: nat, a: seq<byte>, now: seq<byte>, mid: nat, b: seq<byte>, whole: seq<byte>)
    requires at <= |was| && now == Written(was, at, a) && mid == at + |a| && whole == a + b
    ensures mid <= |now| && Written(now, mid, b) == Written(was, at, whole)
  {
    WrittenTwice(was, at, a, b);
  }

  lemma {:induction false} WrittenIsOverwrite(
      was: seq<byte>, grown: seq<byte>, size: nat, at: nat, data: seq<byte>, size': nat)
    requires was <= grown && at <= size <= |was| && at + |data| <= |grown|
    requires size' == if at + |data| > size then at + |data| else size
    ensures Overwrite(grown, at, data)[..size'] == Written(was[..size], at, data)
  {
    WrittenAtOnce(was[..size], at, data);
    OverwriteAtOnce(grown, at, data);
  }

  /** A flat sequence before, in and after block `i`. */
  lemma {:induction false} FlatAround(blocks: seq<seq<byte>>, i: nat, base: nat)
    requires Even(blocks, base) && i < |blocks|
    ensures Flat(blocks) == Flat(blocks[..i]) + (blocks[i] + Flat(blocks[i + 1..]))
    ensures |Flat(blocks[..i])| == Start(i, base)
  {
    assert blocks == blocks[..i] + blocks[i..];
    FlatAppend(blocks[..i], blocks[i..]);
    assert blocks[i..][1..] == blocks[i + 1..];
    FlatLength(blocks[..i], base);
  }

  /** Reading in one block reads in the whole. */
  lemma {:induction false} FlatSlice(blocks: seq<seq<byte>>, i: nat, off: nat, n: nat, base: nat, at: nat)
    requires Even(blocks, base) && i < |blocks| && off + n <= base && at == Start(i, base) + off
    ensures at + n <= |Flat(blocks)|
    ensures Flat(blocks)[at..at + n] == blocks[i][off..off + n]
  {
    FlatAround(blocks, i, base);
    SliceInside(Flat(blocks[..i]), blocks[i], Flat(blocks[i + 1..]), off, n);
  }

  lemma SliceInside(a: seq<byte>, b: seq<byte>, c: seq<byte>, off: nat, n: nat)
    requires off + n <= |b|
    ensures (a + (b + c))[|a| + off..|a| + off + n] == b[off..off + n]
  {
  }

  /** Writing in one block writes in the whole. */
  lemma {:induction false} FlatUpdate(blocks: seq<seq<byte>>, i: nat, off: nat, bytes: seq<byte>, base: nat, at: nat)
    requires Even(blocks, base) && i < |blocks| && off + |bytes| <= base && at == Start(i, base) + off
    ensures at + |bytes| <= |Flat(blocks)|
    ensures Flat(blocks[i := Overwrite(blocks[i], off, bytes)]) == Overwrite(Flat(blocks), at, bytes)
  {
    var block := Overwrite(blocks[i], off, bytes);
    var changed := blocks[i := block];
    FlatAround(blocks, i, base);
    FlatAround(changed, i, base);
    assert changed[..i] == blocks[..i] && changed[i + 1..] == blocks[i + 1..];
    var before, after := Flat(blocks[..i]), Flat(blocks[i + 1..]);
    OverwriteRight(before, blocks[i] + after, off, bytes);
    OverwriteLeft(blocks[i], after, off, bytes);
  }

  /** How many blocks hold `n` bytes. `ceil` in floating point is this exact quotient for
      sizes below 2^53. */
  method BlocksFor(n: nat, base: nat) returns (count: nat)
    requires base > 0 && n > 0
    ensures count > 0 && n <= Start(count, base) < n + base
  {
    count := (n + base - 1) / base;
    StartIsProduct(count, base);
    assert n + base - 1 == base * count + (n + base - 1) % base;
  }
}

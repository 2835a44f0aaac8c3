/** What the other modules share. */
module Prelude {
  type byte = b: nat | b < 256 witness 0

  datatype Option<+T> = None | Some(value: T)

  const TWO_31: nat := 0x8000_0000
  const TWO_32: nat := 0x1_0000_0000
  const TWO_63: nat := 0x8000_0000_0000_0000
  const TWO_64: nat := 0x1_0000_0000_0000_0000

  /** What a number becomes when it is returned as an `int`. */
  function Int32(n: nat): int {
    var low := n % TWO_32;
    if low < TWO_31 then low else low - TWO_32
  }

  /** That is the one number of 31 bits and a sign that differs from it by a multiple of 2^32. */
  lemma Int32Is(n: nat, r: int)
    ensures Int32(n) == r <==> -0x8000_0000 <= r < 0x8000_0000 && (n - r) % 0x1_0000_0000 == 0
  {
  }

  lemma Regroup<T>(a: seq<T>, b: seq<T>, c: seq<T>)
    ensures (a + b) + c == a + (b + c)
  {
  }

  lemma HeadAndTail<T>(a: seq<T>, b: seq<T>)
    requires a != []
    ensures (a + b)[0] == a[0] && (a + b)[1..] == a[1..] + b
  {
  }

  lemma SliceOfPrefix<T>(s: seq<T>, n: nat, a: nat, b: nat)
    requires a <= b <= n <= |s|
    ensures s[..n][a..b] == s[a..b]
  {
  }
}

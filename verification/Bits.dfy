/** Bitwise operations on natural numbers, bit by bit from the lowest. */
module Bits {

  predicate Bit(w: nat, i: nat) {
    if i == 0 then w % 2 == 1 else Bit(w / 2, i - 1)
  }

  function And(a: nat, b: nat): (r: nat)
    ensures r <= a && r <= b
  {
    if a == 0 || b == 0 then 0 else 2 * And(a / 2, b / 2) + if a % 2 == 1 && b % 2 == 1 then 1 else 0
  }

  function Or(a: nat, b: nat): (r: nat)
    ensures a <= r && b <= r
    decreases a
  {
    if a == 0 then b else 2 * Or(a / 2, b / 2) + if a % 2 + b % 2 > 0 then 1 else 0
  }

  function Xor(a: nat, b: nat): nat
    decreases a + b
  {
    if a == 0 && b == 0 then 0 else 2 * Xor(a / 2, b / 2) + (a % 2 + b % 2) % 2
  }

  function Pow2(n: nat): (r: nat)
    ensures r >= 1
  {
    if n == 0 then 1 else 2 * Pow2(n - 1)
  }

  /** `__builtin_popcount`. */
  function PopCount(w: nat): nat {
    if w == 0 then 0 else w % 2 + PopCount(w / 2)
  }

  // ---------------------------------------------------------------- bit by bit

  lemma {:induction false} BitZero(i: nat)
    ensures !Bit(0, i)
  {
    if i > 0 {
      BitZero(i - 1);
    }
  }

  lemma {:induction false} BitAnd(a: nat, b: nat, i: nat)
    ensures Bit(And(a, b), i) <==> Bit(a, i) && Bit(b, i)
    decreases i
  {
    if a == 0 || b == 0 {
      BitZero(i);
    } else if i > 0 {
      BitAnd(a / 2, b / 2, i - 1);
      assert And(a, b) / 2 == And(a / 2, b / 2);
    }
  }

  lemma {:induction false} BitOr(a: nat, b: nat, i: nat)
    ensures Bit(Or(a, b), i) <==> Bit(a, i) || Bit(b, i)
    decreases i
  {
    if a == 0 {
      BitZero(i);
    } else if i > 0 {
      BitOr(a / 2, b / 2, i - 1);
      assert Or(a, b) / 2 == Or(a / 2, b / 2);
    }
  }

  lemma {:induction false} BitPow2(n: nat, i: nat)
    ensures Bit(Pow2(n), i) <==> i == n
  {
    if n == 0 {
      if i > 0 {
        BitZero(i - 1);
      }
    } else if i > 0 {
      BitPow2(n - 1, i - 1);
    }
  }

  /** Subtracting from all ones flips every bit. */
  lemma ComplementHalves(m: nat, w: nat)
    requires w < 2 * m
    ensures (2 * m - 1 - w) / 2 == m - 1 - w / 2 && (2 * m - 1 - w) % 2 == 1 - w % 2
  {
  }

  lemma {:induction false} BitFlip(n: nat, w: nat, i: nat)
    requires w < Pow2(n) && i < n
    ensures Bit(Pow2(n) - 1 - w, i) <==> !Bit(w, i)
  {
    ComplementHalves(Pow2(n - 1), w);
    if i > 0 {
      BitFlip(n - 1, w / 2, i - 1);
    }
  }

  lemma {:induction false} AndStep(a: nat, b: nat)
    ensures And(a, b) / 2 == And(a / 2, b / 2)
    ensures And(a, b) % 2 == if a % 2 == 1 && b % 2 == 1 then 1 else 0
  {
  }

  lemma {:induction false} OrStep(a: nat, b: nat)
    ensures Or(a, b) / 2 == Or(a / 2, b / 2)
    ensures Or(a, b) % 2 == if a % 2 + b % 2 > 0 then 1 else 0
  {
  }

  /** A mask of n ones keeps the remainder modulo 2^n. */
  lemma {:induction false} AndMask(n: nat, w: nat)
    ensures And(w, Pow2(n) - 1) == w % Pow2(n)
  {
    if n > 0 {
      AndMask(n - 1, w / 2);
      var m := Pow2(n - 1);
      AndBelow(w, w / 2, w % 2, 2 * m - 1, m - 1, 1);
      ModHalves(w, m);
    }
  }

  lemma ModHalves(w: nat, m: nat)
    requires m > 0
    ensures w % (2 * m) == 2 * ((w / 2) % m) + w % 2
  {
    var q, r := (w / 2) / m, (w / 2) % m;
    assert w == (2 * m) * q + (2 * r + w % 2);
    UniqueRemainder(w, 2 * m, q, 2 * r + w % 2);
  }

  lemma {:induction false} MultipleIsFar(m: nat, k: nat)
    requires k > 0
    ensures m * k >= m
  {
    if k > 1 {
      MultipleIsFar(m, k - 1);
      assert m * k == m * (k - 1) + m;
    }
  }

  lemma UniqueRemainder(w: nat, m: nat, q: nat, r: nat)
    requires m > 0 && r < m && w == m * q + r
    ensures w / m == q && w % m == r
  {
    var p := w / m;
    assert w == m * p + w % m;
    if p > q {
      assert m * (p - q) == m * p - m * q;
      MultipleIsFar(m, p - q);
    } else if p < q {
      assert m * (q - p) == m * q - m * p;
      MultipleIsFar(m, q - p);
    }
  }

  lemma {:induction false} DivDiv(v: nat, a: nat, m: nat)
    requires a > 0 && m > 0
    ensures a * m > 0 && v / a / m == v / (a * m)
  {
    var q, r, s := v / a / m, v / a % m, v % a;
    assert v == a * (v / a) + s;
    assert v / a == m * q + r;
    Recombine(a, m, q, r, s);
    UniqueRemainder(v, a * m, q, a * r + s);
  }

  lemma {:induction false} Recombine(a: nat, m: nat, q: nat, r: nat, s: nat)
    requires s < a && r < m
    ensures a * (m * q + r) + s == (a * m) * q + (a * r + s)
    ensures a * r + s < a * m
  {
    Distribute(a, m, q, r);
    Distribute(a, 1, r, m - r);
    Distribute(a, 1, 1, m - r - 1);
  }

  lemma {:induction false} Distribute(a: nat, m: nat, q: nat, r: nat)
    ensures a * (m * q + r) == (a * m) * q + a * r
  {
    var x := m * q;
    assert a * (x + r) == a * x + a * r;
    assert a * x == (a * m) * q;
  }

  // ---------------------------------------------------------------- wide words

  /** The wide word whose lowest n bits are `low` and whose other bits are `high`. */
  function Join(n: nat, low: nat, high: nat): nat
    decreases n, low
  {
    if n == 0 then high else 2 * Join(n - 1, low / 2, high) + low % 2
  }

  function High(n: nat, w: nat): nat
    decreases n, w
  {
    if n == 0 then w else High(n - 1, w / 2)
  }

  function Low(n: nat, w: nat): nat
    decreases n, w
  {
    if n == 0 then 0 else 2 * Low(n - 1, w / 2) + w % 2
  }

  lemma {:induction false} JoinSplits(n: nat, low: nat, high: nat)
    requires low < Pow2(n)
    ensures Low(n, Join(n, low, high)) == low && High(n, Join(n, low, high)) == high
    ensures Join(n, low, high) == 0 <==> low == 0 && high == 0
  {
    if n > 0 {
      JoinSplits(n - 1, low / 2, high);
    }
  }

  /** Operating on a wide word operates on its parts. */
  lemma HalfOf(a: nat, x: nat, p: nat)
    requires a == 2 * x + p && p < 2
    ensures a / 2 == x && a % 2 == p
  {
  }

  /** One more bit below each operand. */
  lemma {:induction false} AndBelow(a: nat, x: nat, p: nat, b: nat, y: nat, q: nat)
    requires a == 2 * x + p && p < 2 && b == 2 * y + q && q < 2
    ensures And(a, b) == 2 * And(x, y) + if p == 1 && q == 1 then 1 else 0
  {
    HalfOf(a, x, p);
    HalfOf(b, y, q);
  }

  lemma {:induction false} OrBelow(a: nat, x: nat, p: nat, b: nat, y: nat, q: nat)
    requires a == 2 * x + p && p < 2 && b == 2 * y + q && q < 2
    ensures Or(a, b) == 2 * Or(x, y) + if p == 1 || q == 1 then 1 else 0
  {
    HalfOf(a, x, p);
    HalfOf(b, y, q);
  }

  lemma {:induction false} AndJoin(n: nat, a: nat, c: nat, b: nat, d: nat)
    ensures And(Join(n, a, c), Join(n, b, d)) == Join(n, And(a, b), And(c, d))
  {
    if n > 0 {
      AndJoin(n - 1, a / 2, c, b / 2, d);
      AndBelow(Join(n, a, c), Join(n - 1, a / 2, c), a % 2, Join(n, b, d), Join(n - 1, b / 2, d), b % 2);
      AndStep(a, b);
    }
  }

  lemma {:induction false} OrJoin(n: nat, a: nat, c: nat, b: nat, d: nat)
    ensures Or(Join(n, a, c), Join(n, b, d)) == Join(n, Or(a, b), Or(c, d))
  {
    if n > 0 {
      OrJoin(n - 1, a / 2, c, b / 2, d);
      OrBelow(Join(n, a, c), Join(n - 1, a / 2, c), a % 2, Join(n, b, d), Join(n - 1, b / 2, d), b % 2);
      OrStep(a, b);
    }
  }

  lemma {:induction false} OrBound(n: nat, a: nat, b: nat)
    requires a < Pow2(n) && b < Pow2(n)
    ensures Or(a, b) < Pow2(n)
  {
    if n > 0 {
      OrBound(n - 1, a / 2, b / 2);
      OrStep(a, b);
    }
  }

  // ---------------------------------------------------------------- counting bits

  lemma {:induction false} PopCountExtremes(n: nat, w: nat)
    requires w < Pow2(n)
    ensures PopCount(w) <= n
    ensures PopCount(w) == 0 <==> w == 0
    ensures PopCount(w) == n <==> w == Pow2(n) - 1
  {
    if n > 0 {
      PopCountExtremes(n - 1, w / 2);
    }
  }

  lemma {:induction false} Pow2Order(i: nat, j: nat)
    ensures i < j <==> Pow2(i) < Pow2(j)
  {
    if i > 0 && j > 0 {
      Pow2Order(i - 1, j - 1);
    }
  }

  lemma Pow2Values()
    ensures Pow2(14) == 0x4000 && Pow2(15) == 0x8000 && Pow2(16) == 0x1_0000
  {
    assert Pow2(4) == 16;
    assert Pow2(8) == 256;
    assert Pow2(12) == 4096;
  }

  // ---------------------------------------------------------------- exclusive or

  lemma {:induction false} XorStep(a: nat, b: nat)
    ensures Xor(a, b) / 2 == Xor(a / 2, b / 2) && Xor(a, b) % 2 == (a % 2 + b % 2) % 2
  {
  }

  lemma {:induction false} BitXor(a: nat, b: nat, i: nat)
    ensures Bit(Xor(a, b), i) <==> Bit(a, i) != Bit(b, i)
    decreases i
  {
    XorStep(a, b);
    if i > 0 {
      BitXor(a / 2, b / 2, i - 1);
    }
  }

  lemma {:induction false} XorBound(n: nat, a: nat, b: nat)
    requires a < Pow2(n) && b < Pow2(n)
    ensures Xor(a, b) < Pow2(n)
  {
    if n > 0 {
      XorBound(n - 1, a / 2, b / 2);
      XorStep(a, b);
    }
  }

  lemma ParityTwice(a: nat, b: nat)
    ensures ((a % 2 + b % 2) % 2 + b % 2) % 2 == a % 2
  {
  }

  /** The same mask twice undoes itself. */
  lemma {:induction false} XorTwice(n: nat, a: nat, b: nat)
    requires a < Pow2(n) && b < Pow2(n)
    ensures Xor(Xor(a, b), b) == a
  {
    if n > 0 {
      XorTwice(n - 1, a / 2, b / 2);
      var x := Xor(a, b);
      XorStep(a, b);
      XorStep(x, b);
      ParityTwice(a, b);
      Halves(Xor(x, b), a);
    }
  }

  lemma Halves(x: nat, y: nat)
    requires x / 2 == y / 2 && x % 2 == y % 2
    ensures x == y
  {
  }
}

/** Shifts, masks and bit reversal on natural numbers, defined one bit at a time
    so that every fact about them is linear arithmetic plus induction.
    `Shl(x, k)` is `x << k`, `Shr(x, k)` is `x >> k` and `Low(x, k)` is
    `x & ((1 << k) - 1)` of the C code. */
module Bits {

  function Shl(x: nat, k: nat): nat {
    if k == 0 then x else 2 * Shl(x, k - 1)
  }

  function Shr(x: nat, k: nat): nat {
    if k == 0 then x else Shr(x / 2, k - 1)
  }

  function Low(x: nat, k: nat): nat {
    if k == 0 then 0 else x % 2 + 2 * Low(x / 2, k - 1)
  }

  function Pow2(k: nat): nat {
    Shl(1, k)
  }

  lemma {:induction false} ShlAdd(x: nat, y: nat, k: nat)
    ensures Shl(x + y, k) == Shl(x, k) + Shl(y, k)
  {
    if k != 0 {
      ShlAdd(x, y, k - 1);
    }
  }

  lemma {:induction false} ShlShl(x: nat, a: nat, b: nat)
    ensures Shl(Shl(x, a), b) == Shl(x, a + b)
  {
    if b != 0 {
      ShlShl(x, a, b - 1);
    }
  }

  lemma {:induction false} ShlZero(k: nat)
    ensures Shl(0, k) == 0
  {
    if k != 0 {
      ShlZero(k - 1);
    }
  }

  /** Shifting is strictly monotone: distinct multiples of `2^k` are `2^k` apart. */
  lemma {:induction false} ShlMono(x: nat, y: nat, k: nat)
    ensures x <= y ==> Shl(x, k) <= Shl(y, k)
    ensures x < y ==> Shl(x, k) + Pow2(k) <= Shl(y, k)
    ensures 0 < Pow2(k)
    ensures x <= Shl(x, k)
  {
    if k != 0 {
      ShlMono(x, y, k - 1);
    }
  }

  lemma Pow2Mono(a: nat, b: nat)
    ensures a <= b ==> Pow2(a) <= Pow2(b)
    ensures a < b ==> 2 * Pow2(a) <= Pow2(b)
    ensures 0 < Pow2(a)
  {
    ShlMono(0, 1, a);
    if a < b {
      Pow2Scale(a, b - a);
    }
  }

  lemma {:induction false} Pow2Scale(a: nat, d: nat)
    requires 0 < d
    ensures 2 * Pow2(a) <= Pow2(a + d)
  {
    if d > 1 {
      Pow2Scale(a, d - 1);
    }
  }

  /** Every number is its low part plus its shifted high part. */
  lemma {:induction false} Split(x: nat, k: nat)
    ensures x == Low(x, k) + Shl(Shr(x, k), k)
    ensures Low(x, k) < Pow2(k)
  {
    if k != 0 {
      Split(x / 2, k - 1);
    }
  }

  /** ... and in no other way. */
  lemma {:induction false} SplitUnique(lo: nat, hi: nat, k: nat)
    requires lo < Pow2(k)
    ensures Low(lo + Shl(hi, k), k) == lo
    ensures Shr(lo + Shl(hi, k), k) == hi
  {
    if k != 0 {
      SplitUnique(lo / 2, hi, k - 1);
    }
  }

  lemma LowSmall(x: nat, k: nat)
    requires x < Pow2(k)
    ensures Low(x, k) == x && Shr(x, k) == 0
  {
    ShlZero(k);
    SplitUnique(x, 0, k);
  }

  lemma {:induction false} ShrShr(x: nat, a: nat, b: nat)
    ensures Shr(Shr(x, a), b) == Shr(x, a + b)
  {
    if a != 0 {
      ShrShr(x / 2, a - 1, b);
    }
  }

  /** The low `a + b` bits are the low `a` bits and the next `b` bits. */
  lemma {:induction false} LowSplit(x: nat, a: nat, b: nat)
    ensures Low(x, a + b) == Low(x, a) + Shl(Low(Shr(x, a), b), a)
    ensures Low(Low(x, a + b), a) == Low(x, a)
    ensures Shr(Low(x, a + b), a) == Low(Shr(x, a), b)
  {
    if a != 0 {
      LowSplit(x / 2, a - 1, b);
      var y, w := Low(x / 2, a - 1 + b), Low(x, a + b);
      assert w == x % 2 + 2 * y;
      assert w % 2 == x % 2 && w / 2 == y;
      LowHalf(w, a);
      LowHalf(x, a);
    } else {
      assert Low(x, 0) == 0;
    }
  }

  lemma LowHalf(x: nat, a: nat)
    requires 0 < a
    ensures Low(x, a) == x % 2 + 2 * Low(x / 2, a - 1) && Shr(x, a) == Shr(x / 2, a - 1)
  {
  }

  lemma ShrMono(x: nat, y: nat, k: nat)
    requires x <= y
    ensures Shr(x, k) <= Shr(y, k)
  {
    Split(x, k);
    Split(y, k);
    ShlMono(Shr(y, k), Shr(x, k), k);
  }

  /** `Shr(x, k)` is the block of size `2^k` that holds `x`. */
  lemma ShrBlock(x: nat, q: nat, k: nat)
    requires Shl(q, k) <= x < Shl(q, k) + Pow2(k)
    ensures Shr(x, k) == q
  {
    SplitUnique(x - Shl(q, k), q, k);
  }

  /** Past the end of an aligned block, the block number is larger. */
  lemma LaterBlock(x: nat, y: nat, k: nat)
    requires x == Shl(Shr(x, k), k) && x + Pow2(k) <= y
    ensures Shr(x, k) < Shr(y, k)
  {
    Split(y, k);
    ShlMono(Shr(y, k), Shr(x, k), k);
  }

  lemma ShrBound(x: nat, k: nat, l: nat)
    requires x < Pow2(k + l)
    ensures Shr(x, k) < Pow2(l)
  {
    Split(x, k);
    ShlShl(1, l, k);
    ShlMono(Pow2(l), Shr(x, k), k);
  }

  /** Reverse the low `n` bits of `x`; higher bits are ignored. */
  function Rev(x: nat, n: nat): nat {
    if n == 0 then 0 else Shl(x % 2, n - 1) + Rev(x / 2, n - 1)
  }

  lemma {:induction false} RevBound(x: nat, n: nat)
    ensures Rev(x, n) < Pow2(n)
  {
    if n != 0 {
      RevBound(x / 2, n - 1);
      ShlMono(x % 2, 1, n - 1);
    }
  }

  /** Reversal exchanges the low and the high part. */
  lemma {:induction false} RevSplit(a: nat, i: nat, b: nat, j: nat)
    requires a < Pow2(i)
    ensures Rev(a + Shl(b, i), i + j) == Shl(Rev(a, i), j) + Rev(b, j)
  {
    if i == 0 {
      ShlZero(j);
    } else {
      var x := a + Shl(b, i);
      assert x % 2 == a % 2 && x / 2 == a / 2 + Shl(b, i - 1);
      RevSplit(a / 2, i - 1, b, j);
      ShlShl(a % 2, i - 1, j);
      ShlAdd(Shl(a % 2, i - 1), Rev(a / 2, i - 1), j);
    }
  }

  lemma {:induction false} RevRev(x: nat, n: nat)
    requires x < Pow2(n)
    ensures Rev(Rev(x, n), n) == x
  {
    if n != 0 {
      RevRev(x / 2, n - 1);
      RevBound(x / 2, n - 1);
      RevSplit(Rev(x / 2, n - 1), n - 1, x % 2, 1);
      RevOne(x % 2);
    }
  }

  lemma RevOne(b: nat)
    requires b < 2
    ensures Rev(b, 1) == b
  {
    assert Rev(b / 2, 0) == 0;
  }

  lemma RevInjective(x: nat, y: nat, n: nat)
    requires x < Pow2(n) && y < Pow2(n) && Rev(x, n) == Rev(y, n)
    ensures x == y
  {
    RevRev(x, n);
    RevRev(y, n);
  }

  /** The low `l` bits of a reversal are the reversed high `l` bits. */
  lemma RevPrefix(x: nat, n: nat, l: nat)
    requires l <= n
    ensures Low(Rev(x, n), l) == Rev(Shr(x, n - l), l)
  {
    Split(x, n - l);
    RevSplit(Low(x, n - l), n - l, Shr(x, n - l), l);
    RevBound(Shr(x, n - l), l);
    SplitUnique(Rev(Shr(x, n - l), l), Rev(Low(x, n - l), n - l), l);
  }

  /** Appending zeros to a code does not change its reversal. */
  lemma RevScaled(c: nat, l: nat, n: nat)
    requires l <= n
    ensures Rev(Shl(c, n - l), n) == Rev(c, l)
  {
    ShlMono(0, 1, n - l);
    RevSplit(0, n - l, c, l);
    RevZero(n - l);
    ShlZero(l);
  }

  lemma {:induction false} RevZero(n: nat)
    ensures Rev(0, n) == 0
  {
    if n != 0 {
      RevZero(n - 1);
      ShlZero(n - 1);
    }
  }

  /** Bits above position `n` do not matter. */
  lemma {:induction false} RevLow(x: nat, n: nat)
    ensures Rev(Low(x, n), n) == Rev(x, n)
  {
    if n != 0 {
      RevLow(x / 2, n - 1);
    }
  }

  function Sum(s: seq<int>): int {
    if |s| == 0 then 0 else Sum(s[..|s| - 1]) + s[|s| - 1]
  }

  lemma {:induction false} SumUpdate(s: seq<int>, i: nat, v: int)
    requires i < |s|
    ensures Sum(s[i := v]) == Sum(s) - s[i] + v
  {
    var n := |s| - 1;
    if i == n {
      assert s[i := v][..n] == s[..n];
    } else {
      SumUpdate(s[..n], i, v);
      assert s[i := v][..n] == s[..n][i := v];
    }
  }

  lemma {:induction false} SumZero(s: seq<int>)
    requires forall i :: 0 <= i < |s| ==> s[i] == 0
    ensures Sum(s) == 0
  {
    if |s| != 0 {
      SumZero(s[..|s| - 1]);
    }
  }

  /** The small powers of two. */
  lemma Powers()
    ensures Pow2(0) == 1 && Pow2(1) == 2 && Pow2(2) == 4 && Pow2(3) == 8 && Pow2(4) == 16 && Pow2(5) == 32
    ensures Pow2(6) == 64 && Pow2(7) == 128 && Pow2(8) == 256 && Pow2(9) == 512 && Pow2(10) == 1024
    ensures Pow2(11) == 2048 && Pow2(12) == 4096 && Pow2(13) == 8192 && Pow2(15) == 32768 && Pow2(16) == 65536
  {
    assert Shl(1, 15) == 32768;
    assert Shl(1, 16) == 2 * Shl(1, 15);
    assert Shl(1, 13) == 8192 && Shl(1, 12) == 4096 && Shl(1, 11) == 2048 && Shl(1, 10) == 1024 && Shl(1, 9) == 512;
    assert Shl(1, 8) == 256 && Shl(1, 7) == 128 && Shl(1, 6) == 64 && Shl(1, 5) == 32 && Shl(1, 4) == 16;
  }

  // ---------------------------------------------------------------- single bits

  /** Bit `d` of `x`. */
  function Bit(x: nat, d: nat): bool {
    if d == 0 then x % 2 == 1 else Bit(x / 2, d - 1)
  }

  lemma {:induction false} BitZero(d: nat)
    ensures !Bit(0, d)
  {
    if d != 0 {
      BitZero(d - 1);
    }
  }

  // ---------------------------------------------------------------- masks

  /** Bitwise and. */
  function And(x: nat, y: nat): nat
    decreases x + y
  {
    if x == 0 || y == 0 then 0 else (if x % 2 == 1 && y % 2 == 1 then 1 else 0) + 2 * And(x / 2, y / 2)
  }

  /** A mask bounds what it lets through. */
  lemma {:induction false} AndBound(x: nat, y: nat)
    ensures And(x, y) <= y
    decreases x + y
  {
    if x != 0 && y != 0 {
      AndBound(x / 2, y / 2);
    }
  }

  /** Quotient and remainder are unique. */
  lemma Remainder(n: nat, d: nat, q: nat, r: nat)
    requires 0 < d && r < d && n == q * d + r
    ensures n / d == q && n % d == r
  {
    var q', r' := n / d, n % d;
    assert n == q' * d + r';
    if q < q' {
      Ordered(q + 1, q', d);
    } else if q' < q {
      Ordered(q' + 1, q, d);
    }
  }

  lemma Ordered(a: nat, b: nat, d: nat)
    requires a <= b
    ensures a * d <= b * d && a * d == (if a == 0 then 0 else (a - 1) * d + d)
  {
    assert b * d == a * d + (b - a) * d;
  }

  lemma ModDouble(x: nat, m: nat)
    requires 0 < m
    ensures x % (2 * m) == x % 2 + 2 * (x / 2 % m)
  {
    var h := x / 2;
    var q, r := h / m, h % m;
    assert h == q * m + r;
    assert x == q * (2 * m) + (x % 2 + 2 * r);
    Remainder(x, 2 * m, q, x % 2 + 2 * r);
  }

  /** Masking with a power of two less one is the remainder. */
  lemma {:induction false} MaskIsMod(x: nat, k: nat)
    ensures 0 < Pow2(k) && And(x, Pow2(k) - 1) == x % Pow2(k)
  {
    if k != 0 {
      MaskIsMod(x / 2, k - 1);
      var m := Pow2(k - 1);
      assert Pow2(k) == 2 * m;
      ModDouble(x, m);
      assert (2 * m - 1) % 2 == 1 && (2 * m - 1) / 2 == m - 1;
      if x == 0 {
        assert 0 % (2 * m) == 0;
      }
    }
  }

  lemma {:induction false} BitAnd(x: nat, y: nat, d: nat)
    ensures Bit(And(x, y), d) == (Bit(x, d) && Bit(y, d))
    decreases d
  {
    if x == 0 || y == 0 {
      BitZero(d);
    } else if d != 0 {
      BitAnd(x / 2, y / 2, d - 1);
    }
  }

  /** A number that is not zero has a bit set. */
  lemma {:induction false} SomeBit(x: nat) returns (d: nat)
    requires x != 0
    ensures Bit(x, d)
  {
    if x % 2 == 1 {
      d := 0;
    } else {
      var e := SomeBit(x / 2);
      d := e + 1;
    }
  }

  /** Shifts as multiplication and division. */
  lemma {:induction false} ShlMul(x: nat, k: nat)
    ensures Shl(x, k) == x * Pow2(k)
  {
    if k != 0 {
      ShlMul(x, k - 1);
      var p := Pow2(k - 1);
      assert x * (2 * p) == 2 * (x * p);
    }
  }

  lemma ShrDiv(x: nat, k: nat)
    ensures 0 < Pow2(k) && Shr(x, k) == x / Pow2(k) && Shr(x, k) <= x
  {
    Split(x, k);
    ShlMul(Shr(x, k), k);
    ShlMono(Shr(x, k), Shr(x, k), k);
    Remainder(x, Pow2(k), Shr(x, k), Low(x, k));
  }

  /** Bitwise or. */
  function Or(x: nat, y: nat): nat
    decreases x + y
  {
    if x == 0 && y == 0 then 0 else (if x % 2 == 1 || y % 2 == 1 then 1 else 0) + 2 * Or(x / 2, y / 2)
  }

  lemma {:induction false} BitOr(x: nat, y: nat, d: nat)
    ensures Bit(Or(x, y), d) == (Bit(x, d) || Bit(y, d))
    decreases d
  {
    if x == 0 && y == 0 {
      BitZero(d);
    } else if d != 0 {
      BitOr(x / 2, y / 2, d - 1);
    }
  }

  lemma {:induction false} OrBound(x: nat, y: nat, k: nat)
    requires x < Pow2(k) && y < Pow2(k)
    ensures Or(x, y) < Pow2(k)
  {
    if k != 0 {
      OrBound(x / 2, y / 2, k - 1);
    }
  }
}

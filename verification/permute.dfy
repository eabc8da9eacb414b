/** The block exchange of lib/libmud/vopt.c: `vopt_long_gcd` and `vopt_long_permute_args`. */
module Permute {

  // ---------------------------------------------------------------- multiplication

  /** Products are kept behind a function, and used by these laws only. */
  function Mul(a: int, b: int): int {
    a * b
  }

  lemma MulAdd(a: int, b: int, c: int)
    ensures Mul(a, b + c) == Mul(a, b) + Mul(a, c) && Mul(b + c, a) == Mul(b, a) + Mul(c, a)
  {
  }

  lemma MulSub(a: int, b: int, c: int)
    ensures Mul(a, b - c) == Mul(a, b) - Mul(a, c) && Mul(b - c, a) == Mul(b, a) - Mul(c, a)
  {
  }

  lemma MulComm(a: int, b: int)
    ensures Mul(a, b) == Mul(b, a)
  {
  }

  lemma MulAssoc(a: int, b: int, c: int)
    ensures Mul(Mul(a, b), c) == Mul(a, Mul(b, c))
  {
  }

  lemma MulOne(a: int)
    ensures Mul(a, 1) == a == Mul(1, a) && Mul(a, 0) == 0 == Mul(0, a)
  {
  }

  lemma MulPositive(a: nat, b: nat)
    ensures 0 <= Mul(a, b) && (0 < a && 0 < b ==> a <= Mul(a, b) && b <= Mul(a, b))
  {
    if 0 < a && 0 < b {
      assert a * b == a * (b - 1) + a && a * b == (a - 1) * b + b;
    }
  }

  lemma MulNeg(a: int, b: int)
    ensures Mul(a, -b) == -Mul(a, b)
  {
  }

  /** A multiple of `n` strictly between `-n` and `n` is 0. */
  lemma SmallMultiple(n: int, m: int)
    requires 0 < n && -n < Mul(n, m) < n
    ensures m == 0
  {
    MulNeg(n, m);
    if m >= 1 {
      MulPositive(n, m);
    } else if m <= -1 {
      MulPositive(n, -m);
    }
  }

  /** Remainders are unique. */
  lemma Remainder(n: int, g: nat, q: int, r: nat)
    requires 0 < g && n == Mul(g, q) + r && r < g
    ensures n % g == r && n / g == q
  {
    assert n == Mul(g, n / g) + n % g;
    hide Mul;
    MulSub(g, n / g, q);
    SmallMultiple(g, n / g - q);
  }

  lemma SameRemainder(p: int, g: nat, t: int)
    requires 0 < g
    ensures (p + Mul(g, t)) % g == p % g
  {
    assert p == Mul(g, p / g) + p % g;
    hide Mul;
    MulAdd(g, p / g, t);
    Remainder(p + Mul(g, t), g, p / g + t, p % g);
  }

  // ---------------------------------------------------------------- greatest common divisor

  /** What `vopt_long_gcd` computes. */
  ghost function Euclid(a: nat, b: nat): nat
    requires 0 < b
    decreases b
  {
    if a % b == 0 then b else Euclid(b, a % b)
  }

  /** `vopt_long_gcd`. */
  method Gcd(a0: nat, b0: nat) returns (b: nat)
    requires 0 < b0
    ensures b == Euclid(a0, b0)
  {
    var a: nat := a0;
    b := b0;
    var c := a % b;
    while c != 0
      invariant 0 < b && c == a % b && Euclid(a, b) == Euclid(a0, b0)
      decreases c
    {
      a := b;
      b := c;
      c := a % b;
    }
  }

  /** It divides both numbers and is a combination of them. */
  lemma {:induction false} EuclidFacts(a: nat, b: nat) returns (x: int, y: int, u: int, v: int)
    requires 0 < b
    ensures var g := Euclid(a, b); 0 < g && a == Mul(g, x) && b == Mul(g, y) && Mul(u, a) + Mul(v, b) == g
    decreases b
  {
    var g, q, c := Euclid(a, b), a / b, a % b;
    assert a == Mul(q, b) + c;
    hide Mul;
    if c == 0 {
      MulComm(q, b);
      MulOne(b);
      MulOne(a);
      x, y, u, v := q, 1, 0, 1;
    } else {
      var x', y', u', v' := EuclidFacts(b, c);
      x, y, u, v := Mul(q, x') + y', x', v', u' - Mul(q, v');
      MulAdd(g, Mul(q, x'), y');
      MulComm(g, Mul(q, x'));
      MulAssoc(q, x', g);
      MulComm(x', g);
      MulAdd(v', Mul(q, b), c);
      MulSub(b, u', Mul(q, v'));
      MulAssoc(q, v', b);
      MulComm(q, Mul(v', b));
      MulAssoc(v', b, q);
      MulComm(b, q);
    }
  }

  // ---------------------------------------------------------------- orbits of a rotation

  /** Blocks of `g` times `x` and `g` times `y` elements; `x` and `y` have no common factor. */
  datatype Shape = Shape(g: nat, x: nat, y: nat, u: int, v: int) {
    ghost predicate Ok() { 0 < g && 0 < x && 0 < y && Mul(u, x) + Mul(v, y) == 1 }
    ghost function First(): int { Mul(g, x) }
    ghost function Second(): int { Mul(g, y) }
    ghost function Length(): nat { x + y }
    ghost function Size(): int { Mul(g, x + y) }
  }

  /** Where the element at `p` goes, positions counted from the start of the first block. */
  ghost function Target(s: Shape, p: int): int {
    if p >= s.First() then p - s.First() else p + s.Second()
  }

  ghost function Orbit(s: Shape, c: int, k: nat): int {
    if k == 0 then c else Target(s, Orbit(s, c, k - 1))
  }

  lemma Sizes(s: Shape)
    requires s.Ok()
    ensures s.Size() == s.First() + s.Second() && 0 < s.First() && 0 < s.Second()
  {
    MulAdd(s.g, s.x, s.y);
    MulPositive(s.g, s.x);
    MulPositive(s.g, s.y);
  }

  lemma {:induction false} OrbitInside(s: Shape, c: int, k: nat)
    requires s.Ok() && 0 <= c < s.Size()
    ensures 0 <= Orbit(s, c, k) < s.Size()
  {
    hide Mul;
    Sizes(s);
    if k != 0 {
      OrbitInside(s, c, k - 1);
    }
  }

  /** After `k` steps: `k` times the second length further, less some whole turns. */
  lemma {:induction false} OrbitForm(s: Shape, c: int, k: nat) returns (w: int)
    requires s.Ok() && 0 <= c < s.Size()
    ensures Orbit(s, c, k) == c + Mul(s.g, Mul(k, s.y) - Mul(w, s.Length()))
  {
    hide Mul;
    MulOne(s.y);
    MulOne(s.Length());
    MulOne(s.g);
    if k == 0 {
      w := 0;
    } else {
      var w0 := OrbitForm(s, c, k - 1);
      var e0 := Mul(k - 1, s.y) - Mul(w0, s.Length());
      MulAdd(s.y, k - 1, 1);
      if Orbit(s, c, k - 1) < s.First() {
        w := w0;
        MulAdd(s.g, e0, s.y);
      } else {
        w := w0 + 1;
        MulAdd(s.Length(), w0, 1);
        MulSub(s.g, e0, s.x);
      }
    }
  }

  /** If the length of the cycle divides `d` times `y`, it divides `d`. */
  lemma Coprime(s: Shape, d: int, m: int) returns (q: int)
    requires s.Ok() && Mul(d, s.y) == Mul(m, s.Length())
    ensures d == Mul(q, s.Length())
  {
    hide Mul;
    // d = d u x + d v y = d u (x + y) + d (v - u) y
    var L := s.Length();
    MulAdd(s.u, s.x, s.y);
    MulSub(s.y, s.v, s.u);
    var t := s.v - s.u;
    assert Mul(s.u, L) + Mul(t, s.y) == 1;
    MulAdd(d, Mul(s.u, L), Mul(t, s.y));
    MulOne(d);
    MulAssoc(d, s.u, L);
    MulAssoc(d, t, s.y);
    MulComm(d, t);
    MulAssoc(t, d, s.y);
    MulAssoc(t, m, L);
    MulAdd(L, Mul(d, s.u), Mul(t, m));
    q := Mul(d, s.u) + Mul(t, m);
  }

  /** The cycle closes after `x + y` steps. */
  lemma OrbitCloses(s: Shape, c: int)
    requires s.Ok() && 0 <= c < s.Size()
    ensures Orbit(s, c, s.Length()) == c
  {
    hide Mul;
    var L := s.Length();
    var w := OrbitForm(s, c, L);
    OrbitInside(s, c, L);
    MulComm(L, s.y);
    MulSub(L, s.y, w);
    var m := s.y - w;
    MulComm(m, L);
    MulAssoc(s.g, L, m);
    SmallMultiple(s.Size(), m);
    MulOne(s.Size());
  }

  /** ... and meets no position twice before. */
  lemma OrbitDistinct(s: Shape, c: int, j: nat, k: nat)
    requires s.Ok() && 0 <= c < s.Size() && j < k < j + s.Length()
    ensures Orbit(s, c, j) != Orbit(s, c, k)
  {
    hide Mul;
    if Orbit(s, c, j) == Orbit(s, c, k) {
      var L := s.Length();
      var w := OrbitForm(s, c, j);
      var w' := OrbitForm(s, c, k);
      var e, e' := Mul(j, s.y) - Mul(w, L), Mul(k, s.y) - Mul(w', L);
      MulSub(s.g, e', e);
      SmallMultiple(s.g, e' - e);
      MulSub(s.y, k, j);
      MulSub(L, w', w);
      var q := Coprime(s, k - j, w' - w);
      MulComm(q, L);
      SmallMultiple(L, q);
      MulOne(L);
    }
  }

  /** ... and meets every position that differs from its start by a multiple of `g`. */
  lemma OrbitCovers(s: Shape, c: int, p: int, t: int) returns (k: nat)
    requires s.Ok() && 0 <= c < s.Size() && 0 <= p < s.Size() && p == c + Mul(s.g, t)
    ensures k < s.Length() && Orbit(s, c, k) == p
  {
    var L := s.Length();
    var a := Mul(t, s.v - s.u);
    k := a % L;
    var z := a / L;
    assert a == Mul(L, z) + k;
    hide Mul;
    var w := OrbitForm(s, c, k);
    OrbitInside(s, c, k);
    // k y - w L = t - m L for some m
    MulAdd(s.u, s.x, s.y);
    MulSub(s.y, s.v, s.u);
    var b := s.v - s.u;
    assert Mul(b, s.y) == 1 - Mul(s.u, L);
    MulAssoc(t, b, s.y);
    MulSub(t, 1, Mul(s.u, L));
    MulOne(t);
    MulAssoc(t, s.u, L);
    assert Mul(a, s.y) == t - Mul(Mul(t, s.u), L);
    MulSub(s.y, a, Mul(L, z));
    MulAssoc(L, z, s.y);
    MulComm(L, Mul(z, s.y));
    var m := Mul(t, s.u) + Mul(z, s.y) + w;
    MulAdd(L, Mul(t, s.u) + Mul(z, s.y), w);
    MulAdd(L, Mul(t, s.u), Mul(z, s.y));
    assert Mul(k, s.y) - Mul(w, L) == t - Mul(m, L);
    MulSub(s.g, t, Mul(m, L));
    MulComm(m, L);
    MulAssoc(s.g, L, m);
    SmallMultiple(s.Size(), m);
    MulOne(s.Size());
    assert Mul(s.Size(), m) == 0;
  }

  /** An orbit stays in one residue class, and fills it. */
  lemma OrbitClass(s: Shape, c: int, k: nat)
    requires s.Ok() && 0 <= c < s.Size()
    ensures Orbit(s, c, k) % s.g == c % s.g
  {
    hide Mul;
    var w := OrbitForm(s, c, k);
    SameRemainder(c, s.g, Mul(k, s.y) - Mul(w, s.Length()));
  }

  lemma ClassOrbit(s: Shape, c: int, p: int) returns (k: nat)
    requires s.Ok() && 0 <= c < s.Size() && 0 <= p < s.Size() && p % s.g == c % s.g
    ensures k < s.Length() && Orbit(s, c, k) == p
  {
    assert p == Mul(s.g, p / s.g) + p % s.g && c == Mul(s.g, c / s.g) + c % s.g;
    hide Mul;
    MulSub(s.g, p / s.g, c / s.g);
    k := OrbitCovers(s, c, p, p / s.g - c / s.g);
  }

  // ---------------------------------------------------------------- one cycle

  /** The range of `s.Size()` elements at `at`. */
  ghost predicate Inside<T>(a: seq<T>, at: nat, s: Shape) {
    s.Ok() && 0 < s.Size() && at + s.Size() <= |a|
  }

  /** Position `p` is not among the first `j + 1` of the cycle. */
  ghost predicate Off(s: Shape, c: int, j: nat, p: int) {
    forall k :: 0 <= k <= j ==> p != Orbit(s, c, k)
  }

  lemma OffNext(s: Shape, c: int, j: nat, p: int)
    ensures Off(s, c, j + 1, p) <==> Off(s, c, j, p) && p != Orbit(s, c, j + 1)
    ensures Off(s, c, j, p) ==> p != c
  {
    assert Orbit(s, c, 0) == c;
  }

  /** `j` swaps of the cycle from `c` are done: the positions after `c` on the cycle hold what
      was one step before them, and `c` holds what is to be put down next. */
  ghost predicate Swapped<T>(a: seq<T>, b: seq<T>, at: nat, s: Shape, c: int, j: nat)
    requires Inside(a, at, s) && 0 <= c < s.Size()
  {
    && |a| == |b| && j <= s.Length()
    && (forall k :: 0 <= k ==> 0 <= Orbit(s, c, k) < s.Size())
    && (forall k :: 0 < k <= j && k < s.Length() ==> b[at + Orbit(s, c, k)] == a[at + Orbit(s, c, k - 1)])
    && b[at + c] == a[at + Orbit(s, c, if j < s.Length() then j else s.Length() - 1)]
    && (forall p :: 0 <= p < s.Size() && Off(s, c, j, p) ==> b[at + p] == a[at + p])
    && (forall p :: 0 <= p < |a| && !(at <= p < at + s.Size()) ==> b[p] == a[p])
  }

  lemma SwapStart<T>(a: seq<T>, at: nat, s: Shape, c: int)
    requires Inside(a, at, s) && 0 <= c < s.Size()
    ensures Swapped(a, a, at, s, c, 0)
  {
    forall k: nat
      ensures 0 <= Orbit(s, c, k) < s.Size()
    {
      OrbitInside(s, c, k);
    }
    hide Mul;
  }

  lemma SwapNext<T>(a: seq<T>, b: seq<T>, at: nat, s: Shape, c: int, j: nat)
    requires Inside(a, at, s) && 0 <= c < s.Size() && Swapped(a, b, at, s, c, j) && j < s.Length()
    ensures var q := Orbit(s, c, j + 1);
      0 <= q < s.Size() && Swapped(a, b[at + q := b[at + c]][at + c := b[at + q]], at, s, c, j + 1)
  {
    OrbitInside(s, c, j + 1);
    hide Mul;
    if j + 1 == s.Length() {
      SwapLast(a, b, at, s, c, j);
    } else {
      SwapMiddle(a, b, at, s, c, j);
    }
    hide Swapped;
  }

  lemma SwapLast<T>(a: seq<T>, b: seq<T>, at: nat, s: Shape, c: int, j: nat)
    requires Inside(a, at, s) && 0 <= c < s.Size() && Swapped(a, b, at, s, c, j) && j + 1 == s.Length()
    ensures var q := Orbit(s, c, j + 1);
      q == c && Swapped(a, b[at + q := b[at + c]][at + c := b[at + q]], at, s, c, j + 1)
  {
    hide Mul, Off, Orbit;
    OrbitCloses(s, c);
    var q, next := Orbit(s, c, j + 1), j + 1;
    assert b[at + q := b[at + c]][at + c := b[at + q]] == b;
    forall p | 0 <= p < s.Size() && Off(s, c, next, p)
      ensures Off(s, c, j, p)
    {
      OffNext(s, c, j, p);
    }
  }

  lemma SwapMiddle<T>(a: seq<T>, b: seq<T>, at: nat, s: Shape, c: int, j: nat)
    requires Inside(a, at, s) && 0 <= c < s.Size() && Swapped(a, b, at, s, c, j) && j + 1 < s.Length()
    ensures var q := Orbit(s, c, j + 1);
      0 <= q < s.Size() && Swapped(a, b[at + q := b[at + c]][at + c := b[at + q]], at, s, c, j + 1)
  {
    hide Mul, Orbit, Off;
    var q := Orbit(s, c, j + 1);
    OrbitInside(s, c, j + 1);
    AheadIsNew(s, c, j);
    var b' := b[at + q := b[at + c]][at + c := b[at + q]];
    var next := j + 1;
    forall p | 0 <= p < s.Size() && Off(s, c, next, p)
      ensures b'[at + p] == a[at + p]
    {
      OffNext(s, c, j, p);
    }
  }

  /** The next position of the cycle is none of those before, and these are not the start. */
  lemma AheadIsNew(s: Shape, c: int, j: nat)
    requires s.Ok() && 0 <= c < s.Size() && j + 1 < s.Length()
    ensures Orbit(s, c, 0) == c && Off(s, c, j, Orbit(s, c, j + 1))
    ensures forall k :: 0 <= k <= j ==> Orbit(s, c, k) != Orbit(s, c, j + 1)
    ensures forall k :: 0 < k <= j ==> Orbit(s, c, k) != c
  {
    assert Orbit(s, c, 0) == c;
    hide Mul, Orbit;
    forall k | 0 <= k <= j
      ensures Orbit(s, c, k) != Orbit(s, c, j + 1)
    {
      OrbitDistinct(s, c, k, j + 1);
    }
    forall k | 0 < k <= j
      ensures Orbit(s, c, k) != c
    {
      OrbitDistinct(s, c, 0, k);
    }
  }

  /** A whole residue class is moved. */
  ghost predicate ClassMoved<T>(a: seq<T>, b: seq<T>, at: nat, s: Shape, c: int)
    requires Inside(a, at, s)
  {
    && |a| == |b|
    && (forall p :: 0 <= p < s.Size() && p % s.g == c % s.g ==>
      0 <= Target(s, p) < s.Size() && b[at + Target(s, p)] == a[at + p])
    && (forall p :: 0 <= p < s.Size() && p % s.g != c % s.g ==> b[at + p] == a[at + p])
    && (forall p :: 0 <= p < |a| && !(at <= p < at + s.Size()) ==> b[p] == a[p])
  }

  lemma SwapDone<T>(a: seq<T>, b: seq<T>, at: nat, s: Shape, c: int)
    requires Inside(a, at, s) && 0 <= c < s.Size() && Swapped(a, b, at, s, c, s.Length())
    ensures ClassMoved(a, b, at, s, c)
  {
    hide Mul;
    forall p | 0 <= p < s.Size() && p % s.g == c % s.g
      ensures 0 <= Target(s, p) < s.Size() && b[at + Target(s, p)] == a[at + p]
    {
      var k := ClassOrbit(s, c, p);
      OrbitInside(s, c, k + 1);
      assert Target(s, p) == Orbit(s, c, k + 1);
      if k + 1 == s.Length() {
        OrbitCloses(s, c);
      }
    }
    forall p | 0 <= p < s.Size() && p % s.g != c % s.g
      ensures b[at + p] == a[at + p]
    {
      forall k | 0 <= k <= s.Length()
        ensures p != Orbit(s, c, k)
      {
        OrbitClass(s, c, k);
      }
      assert Off(s, c, s.Length(), p);
    }
  }

  /** The inner loop of `vopt_long_permute_args`. */
  method Cycle<T>(a: array<T>, start: nat, end: nat, optEnd: nat, cstart: nat, cyclelen: nat, ghost s: Shape)
    requires start < end < optEnd <= a.Length && end <= cstart < optEnd
    requires s.Ok() && s.First() == end - start && s.Second() == optEnd - end && s.Size() == optEnd - start
    requires cyclelen == s.Length()
    modifies a
    ensures ClassMoved(old(a[..]), a[..], start, s, cstart - start)
  {
    hide Mul, Swapped, ClassMoved;
    var pos := cstart;
    ghost var c, was := cstart - start, a[..];
    SwapStart(was, start, s, c);
    for j := 0 to cyclelen
      invariant pos == start + Orbit(s, c, j) && start <= pos < optEnd && Swapped(was, a[..], start, s, c, j)
    {
      SwapNext(was, a[..], start, s, c, j);
      ghost var b := a[..];
      if pos >= end {
        pos := pos - (end - start);
      } else {
        pos := pos + (optEnd - end);
      }
      assert pos == start + Orbit(s, c, j + 1);
      var swap := a[pos];
      a[pos] := a[cstart];
      a[cstart] := swap;
      assert a[..] == b[pos := b[cstart]][cstart := b[pos]];
    }
    SwapDone(was, a[..], start, s, c);
  }

  // ---------------------------------------------------------------- all cycles

  /** The classes of the first `i` cycles are moved, the others are where they were. */
  ghost predicate ClassesMoved<T>(a: seq<T>, b: seq<T>, at: nat, s: Shape, i: nat)
    requires Inside(a, at, s)
  {
    && |a| == |b|
    && (forall p :: 0 <= p < s.Size() && p % s.g < i ==>
      0 <= Target(s, p) < s.Size() && b[at + Target(s, p)] == a[at + p])
    && (forall p :: 0 <= p < s.Size() && p % s.g >= i ==> b[at + p] == a[at + p])
    && (forall p :: 0 <= p < |a| && !(at <= p < at + s.Size()) ==> b[p] == a[p])
  }

  /** The target of a position is in its class. */
  lemma TargetClass(s: Shape, p: int)
    requires s.Ok() && 0 <= p < s.Size()
    ensures 0 <= Target(s, p) < s.Size() && Target(s, p) % s.g == p % s.g
  {
    assert Orbit(s, p, 1) == Target(s, Orbit(s, p, 0)) == Target(s, p);
    OrbitInside(s, p, 1);
    OrbitClass(s, p, 1);
  }

  lemma MoreMoved<T>(a: seq<T>, b: seq<T>, b': seq<T>, at: nat, s: Shape, c: int, i: nat)
    requires Inside(a, at, s) && ClassesMoved(a, b, at, s, i) && ClassMoved(b, b', at, s, c) && c % s.g == i
    ensures ClassesMoved(a, b', at, s, i + 1)
  {
    hide Mul;
    forall p | 0 <= p < s.Size() && p % s.g < i + 1
      ensures 0 <= Target(s, p) < s.Size() && b'[at + Target(s, p)] == a[at + p]
    {
      TargetClass(s, p);
    }
  }

  lemma AllMoved<T>(a: seq<T>, b: seq<T>, at: nat, s: Shape)
    requires Inside(a, at, s) && ClassesMoved(a, b, at, s, s.g)
    ensures var m, e := at + s.First(), at + s.Size();
      at <= m <= e <= |a| && b == a[..at] + a[m..e] + a[at..m] + a[e..]
  {
    hide Mul;
    Sizes(s);
    var n, k, m, e := s.First(), s.Second(), at + s.First(), at + s.Size();
    var r := a[..at] + a[m..e] + a[at..m] + a[e..];
    forall p | 0 <= p < |a|
      ensures b[p] == r[p]
    {
      if at <= p < e {
        var from := if p < at + k then p - at + n else p - at - k;
        assert from % s.g < s.g;
        assert Target(s, from) == p - at;
      }
    }
  }

  lemma ShapeOf(n1: nat, n2: nat) returns (s: Shape)
    requires 0 < n1 && 0 < n2
    ensures s.Ok() && s.g == Euclid(n1, n2) && s.First() == n1 && s.Second() == n2 && s.Size() == n1 + n2
  {
    hide Mul;
    var x, y, u, v := EuclidFacts(n1, n2);
    var g := Euclid(n1, n2);
    Factor(g, x, n1);
    Factor(g, y, n2);
    MulAdd(g, x, y);
    // u n1 + v n2 = g means u x + v y = 1
    MulComm(u, n1);
    MulAssoc(g, x, u);
    MulComm(x, u);
    MulComm(v, n2);
    MulAssoc(g, y, v);
    MulComm(y, v);
    MulAdd(g, Mul(u, x), Mul(v, y));
    MulSub(g, Mul(u, x) + Mul(v, y), 1);
    MulOne(g);
    SmallMultiple(g, Mul(u, x) + Mul(v, y) - 1);
    s := Shape(g, x, y, u, v);
  }

  lemma Factor(g: nat, x: int, n: nat)
    requires 0 < g && 0 < n && n == Mul(g, x)
    ensures 0 < x
  {
    MulNeg(g, x);
    if x <= 0 {
      MulPositive(g, -x);
    }
  }

  lemma ExactQuotient(s: Shape, n: nat)
    requires s.Ok() && n == s.Size()
    ensures n / s.g == s.Length()
  {
    hide Mul;
    Remainder(n, s.g, s.Length(), 0);
  }

  /** The cycle that starts `i` behind the first block is in class `i`. */
  lemma StartClass(s: Shape, i: nat)
    requires s.Ok() && i < s.g
    ensures (s.First() + i) % s.g == i && i < s.Second()
  {
    hide Mul;
    Remainder(s.First() + i, s.g, s.x, i);
    MulPositive(s.g, s.y);
  }

  lemma NoneMoved<T>(a: seq<T>, at: nat, s: Shape)
    requires Inside(a, at, s)
    ensures ClassesMoved(a, a, at, s, 0)
  {
    hide Mul;
  }

  /** `vopt_long_permute_args`: the block from `start` to `end` and the one from `end` to
      `optEnd` change places, each in its order; nothing else moves. */
  method PermuteArgs<T>(a: array<T>, start: nat, end: nat, optEnd: nat)
    requires start < end < optEnd <= a.Length
    modifies a
    ensures a[..] == old(a[..start] + a[end..optEnd] + a[start..end] + a[optEnd..])
  {
    hide Mul, ClassMoved, ClassesMoved, Euclid, Shape.Ok;
    var nnonopts, nopts := end - start, optEnd - end;
    ghost var s := ShapeOf(nnonopts, nopts);
    var ncycle := Gcd(nnonopts, nopts);
    ShapeFacts(s);
    ExactQuotient(s, optEnd - start);
    var cyclelen := (optEnd - start) / ncycle;
    ghost var was := a[..];
    NoneMoved(was, start, s);
    for i := 0 to ncycle
      invariant ClassesMoved(was, a[..], start, s, i)
    {
      StartClass(s, i);
      ghost var b := a[..];
      Cycle(a, start, end, optEnd, end + i, cyclelen, s);
      MoreMoved(was, b, a[..], start, s, end + i - start, i);
    }
    AllMoved(was, a[..], start, s);
    assert old(a[..start] + a[end..optEnd] + a[start..end] + a[optEnd..]) == was[..start] + was[end..optEnd]
      + was[start..end] + was[optEnd..];
  }

  lemma ShapeFacts(s: Shape)
    requires s.Ok()
    ensures 0 < s.g && 0 < s.Size()
  {
    Sizes(s);
  }
}

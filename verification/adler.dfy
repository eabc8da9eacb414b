/** Adler-32 of lib/libgz/adler32.c: sums with deferred reduction, and `adler32_combine_`. */
module Adler {
  import opened Common

  const BASE: nat := 65521
  const NMAX: nat := 5552

  datatype Sums = Sums(a: nat, s: nat)

  // ---------------------------------------------------------------- definitions

  /** The checksum of section 8.2 of RFC 1950, byte by byte. */
  function Adler(x: Sums, bytes: seq<nat>): Sums
    decreases |bytes|
  {
    if |bytes| == 0 then x
    else
      var a := (x.a + bytes[0]) % BASE;
      Adler(Sums(a, (x.s + a) % BASE), bytes[1..])
  }

  /** The same sums without reduction. */
  function Raw(x: Sums, bytes: seq<nat>): Sums
    decreases |bytes|
  {
    if |bytes| == 0 then x
    else
      var a := x.a + bytes[0];
      Raw(Sums(a, x.s + a), bytes[1..])
  }

  function Mod(x: Sums): Sums {
    Sums(x.a % BASE, x.s % BASE)
  }

  predicate Reduced(x: Sums) {
    x.a < BASE && x.s < BASE
  }

  predicate Bytes(b: seq<nat>) {
    forall i :: 0 <= i < |b| ==> b[i] < 256
  }

  /** Reduction may be put off. */
  lemma {:induction false} Deferred(x: Sums, bytes: seq<nat>)
    ensures Adler(Mod(x), bytes) == Mod(Raw(x, bytes))
    decreases |bytes|
  {
    if |bytes| != 0 {
      var a := x.a + bytes[0];
      assert (x.a % BASE + bytes[0]) % BASE == a % BASE;
      assert (x.s % BASE + a % BASE) % BASE == (x.s + a) % BASE;
      Deferred(Sums(a, x.s + a), bytes[1..]);
    }
  }

  lemma {:induction false} AdlerAppend(x: Sums, a: seq<nat>, b: seq<nat>)
    ensures Adler(x, a + b) == Adler(Adler(x, a), b)
    decreases |a|
  {
    if |a| == 0 {
      assert a + b == b;
    } else {
      assert (a + b)[1..] == a[1..] + b;
      var c := (x.a + a[0]) % BASE;
      AdlerAppend(Sums(c, (x.s + c) % BASE), a[1..], b);
    }
  }

  lemma {:induction false} RawAppend(x: Sums, a: seq<nat>, b: seq<nat>)
    ensures Raw(x, a + b) == Raw(Raw(x, a), b)
    decreases |a|
  {
    if |a| == 0 {
      assert a + b == b;
    } else {
      assert (a + b)[1..] == a[1..] + b;
      RawAppend(Sums(x.a + a[0], x.s + (x.a + a[0])), a[1..], b);
    }
  }

  lemma RawOne(x: Sums, b: nat)
    ensures Raw(x, [b]) == Sums(x.a + b, x.s + (x.a + b))
  {
    assert [b][1..] == [];
    assert Raw(Sums(x.a + b, x.s + (x.a + b)), []) == Sums(x.a + b, x.s + (x.a + b));
  }

  lemma {:induction false} AdlerReduced(x: Sums, bytes: seq<nat>)
    requires Reduced(x)
    ensures Reduced(Adler(x, bytes))
    decreases |bytes|
  {
    if |bytes| != 0 {
      var a := (x.a + bytes[0]) % BASE;
      AdlerReduced(Sums(a, (x.s + a) % BASE), bytes[1..]);
    }
  }

  // ---------------------------------------------------------------- the 32-bit bound

  /** Largest second sum after `n` bytes without reduction. */
  function Bound(n: nat): nat {
    if n == 0 then BASE - 1 else Bound(n - 1) + (BASE - 1) + 255 * n
  }

  lemma {:induction false} BoundForm(n: nat)
    ensures 2 * Bound(n) == 2 * (BASE - 1) * (n + 1) + 255 * (n * (n + 1))
  {
    if n != 0 {
      BoundForm(n - 1);
      assert n * (n + 1) == (n - 1) * n + 2 * n;
    }
  }

  lemma {:induction false} BoundMono(m: nat, n: nat)
    requires m <= n
    ensures Bound(m) <= Bound(n)
  {
    if m < n {
      BoundMono(m, n - 1);
    }
  }

  /** NMAX is the largest number of bytes for which both sums fit 32 bits. */
  lemma NmaxFits()
    ensures Bound(NMAX) < U32 <= Bound(NMAX + 1)
  {
    BoundForm(NMAX);
    BoundForm(NMAX + 1);
    hide Bound;
    assert NMAX * (NMAX + 1) == 30830256 && (NMAX + 1) * (NMAX + 2) == 30841362;
  }

  lemma {:induction false} RawBound(x: Sums, bytes: seq<nat>)
    requires Reduced(x) && Bytes(bytes)
    ensures Raw(x, bytes).a <= BASE - 1 + 255 * |bytes| && Raw(x, bytes).s <= Bound(|bytes|)
  {
    if |bytes| != 0 {
      var n := |bytes| - 1;
      assert bytes == bytes[..n] + [bytes[n]];
      RawBound(x, bytes[..n]);
      RawAppend(x, bytes[..n], [bytes[n]]);
      RawOne(Raw(x, bytes[..n]), bytes[n]);
    }
  }

  // ---------------------------------------------------------------- adler32

  /** The packed form: second sum in the high half. */
  function Pack(x: Sums): nat {
    x.a + 65536 * x.s
  }

  function Unpack(adler: nat): Sums {
    Sums(adler % 65536, adler / 65536 % 65536)
  }

  lemma PackUnpack(x: Sums)
    requires Reduced(x)
    ensures Unpack(Pack(x)) == x && Pack(x) < U32
  {
  }

  /** Up to NMAX bytes from `from` on, not reduced: neither sum leaves 32 bits. */
  method SumBytes(x: Sums, buf: seq<nat>, from: nat, n: nat) returns (r: Sums)
    requires Reduced(x) && Bytes(buf) && from + n <= |buf| && n <= NMAX
    ensures r == Raw(x, buf[from..from + n])
  {
    hide Raw, Bound, Adler;
    NmaxFits();
    var a: nat, s: nat := x.a, x.s;
    NoneAdded(x);
    assert buf[from..from] == [];
    for k := 0 to n
      invariant Sums(a, s) == Raw(x, buf[from..from + k]) && a < U32 && s < U32
    {
      RawNext(x, buf, from, k);
      BoundMono(k + 1, NMAX);
      a := a + buf[from + k];
      s := s + a;
    }
    r := Sums(a, s);
  }

  lemma NoneAdded(x: Sums)
    ensures Raw(x, []) == x
  {
  }

  lemma RawNext(x: Sums, buf: seq<nat>, from: nat, k: nat)
    requires Reduced(x) && Bytes(buf) && from + k < |buf| && k < NMAX
    ensures var y, b := Raw(x, buf[from..from + k]), buf[from + k];
      Raw(x, buf[from..from + k + 1]) == Sums(y.a + b, y.s + (y.a + b)) && y.a + b < U32
        && y.s + (y.a + b) <= Bound(k + 1)
  {
    hide Raw, Bound;
    assert buf[from..from + k + 1] == buf[from..from + k] + [buf[from + k]];
    RawAppend(x, buf[from..from + k], [buf[from + k]]);
    RawOne(Raw(x, buf[from..from + k]), buf[from + k]);
    RawBound(x, buf[from..from + k + 1]);
  }

  /** A run of bytes is summed and reduced. */
  lemma Reduce(x: Sums, buf: seq<nat>, from: nat, n: nat)
    requires Reduced(x) && from + n <= |buf|
    ensures Mod(Raw(Adler(x, buf[..from]), buf[from..from + n])) == Adler(x, buf[..from + n])
  {
    hide Raw, Adler;
    AdlerReduced(x, buf[..from]);
    Deferred(Adler(x, buf[..from]), buf[from..from + n]);
    assert buf[..from + n] == buf[..from] + buf[from..from + n];
    AdlerAppend(x, buf[..from], buf[from..from + n]);
  }

  /** `adler32`. A null buffer asks for the initial value. */
  method Adler32(adler: nat, buf: seq<nat>, isNull: bool) returns (r: nat)
    requires Reduced(Unpack(adler)) && Bytes(buf) && (isNull ==> buf == [])
    ensures isNull ==> r == 1
    ensures !isNull ==> r == Pack(Adler(Unpack(adler), buf))
  {
    hide Adler, Pack;
    var x := Unpack(adler);
    if |buf| == 1 {
      r := Single(x, buf);
      return;
    }
    if isNull {
      return 1;
    }
    if |buf| < 16 {
      r := Short(x, buf);
      return;
    }
    r := Long(x, buf);
  }

  /** One byte: subtraction instead of division. */
  method Single(x: Sums, buf: seq<nat>) returns (r: nat)
    requires Reduced(x) && Bytes(buf) && |buf| == 1
    ensures r == Pack(Adler(x, buf))
  {
    hide Adler, Pack;
    OneByte(x, buf);
    var a, s := x.a + buf[0], x.s;
    if a >= BASE {
      a := a - BASE;
    }
    s := s + a;
    if s >= BASE {
      s := s - BASE;
    }
    return Pack(Sums(a, s));
  }

  lemma OneByte(x: Sums, buf: seq<nat>)
    requires |buf| == 1
    ensures var a := (x.a + buf[0]) % BASE; Adler(x, buf) == Sums(a, (x.s + a) % BASE)
  {
    var a := (x.a + buf[0]) % BASE;
    assert buf[1..] == [];
    assert Adler(Sums(a, (x.s + a) % BASE), []) == Sums(a, (x.s + a) % BASE);
  }

  /** Fewer than 16 bytes: one subtraction is enough for the first sum. */
  method Short(x: Sums, buf: seq<nat>) returns (r: nat)
    requires Reduced(x) && Bytes(buf) && |buf| < 16
    ensures r == Pack(Adler(x, buf))
  {
    hide Adler, Raw, Bound;
    var y := SumBytes(x, buf, 0, |buf|);
    assert buf[0..0 + |buf|] == buf;
    RawBound(x, buf);
    Deferred(x, buf);
    assert Mod(x) == x;
    var a := y.a;
    if a >= BASE {
      a := a - BASE;
    }
    assert a == y.a % BASE;
    r := Pack(Sums(a, y.s % BASE));
  }

  /** Blocks of NMAX bytes with one reduction each, then the rest. */
  method Long(x: Sums, buf: seq<nat>) returns (r: nat)
    requires Reduced(x) && Bytes(buf)
    ensures r == Pack(Adler(x, buf))
  {
    hide Adler, Raw, Bound;
    var y, i := x, 0;
    NothingRead(x, buf);
    while |buf| - i >= NMAX
      invariant 0 <= i <= |buf| && Reduced(y) && y == Adler(x, buf[..i])
      decreases |buf| - i
    {
      y := SumBytes(y, buf, i, NMAX);
      Reduce(x, buf, i, NMAX);
      y := Mod(y);
      i := i + NMAX;
    }
    if i < |buf| {
      y := SumBytes(y, buf, i, |buf| - i);
      Reduce(x, buf, i, |buf| - i);
      y := Mod(y);
      i := |buf|;
    }
    assert buf[..i] == buf;
    r := Pack(y);
  }

  lemma NothingRead(x: Sums, buf: seq<nat>)
    ensures Adler(x, buf[..0]) == x
  {
  }

  /** The checksum composes over any split of the data. */
  lemma Composes(adler: nat, a: seq<nat>, b: seq<nat>)
    requires Reduced(Unpack(adler))
    ensures var first := Pack(Adler(Unpack(adler), a));
      Reduced(Unpack(first)) && Pack(Adler(Unpack(first), b)) == Pack(Adler(Unpack(adler), a + b))
  {
    AdlerReduced(Unpack(adler), a);
    PackUnpack(Adler(Unpack(adler), a));
    AdlerAppend(Unpack(adler), a, b);
    hide Adler;
  }

  // ---------------------------------------------------------------- adler32_combine

  const ONE: Sums := Sums(1, 0)

  function Times(n: nat, d: int): int {
    n * d
  }

  /** Starting `d` higher adds `d` to the first sum, and to the second once a byte. */
  lemma {:induction false} RawShift(x: Sums, y: Sums, bytes: seq<nat>, d: int)
    requires x.a == y.a + d
    ensures Raw(x, bytes).a == Raw(y, bytes).a + d
    ensures Raw(x, bytes).s - x.s == Raw(y, bytes).s - y.s + Times(|bytes|, d)
    decreases |bytes|
  {
    if |bytes| != 0 {
      var b, n := bytes[0], |bytes|;
      RawShift(Sums(x.a + b, x.s + (x.a + b)), Sums(y.a + b, y.s + (y.a + b)), bytes[1..], d);
      assert n * d == (n - 1) * d + d;
    }
  }

  lemma ModProduct(n: nat, d: int, rem: nat) returns (k: int)
    requires rem == n % BASE
    ensures n * d == rem * d + BASE * k
  {
    var q := n / BASE;
    k := q * d;
    Distribute(BASE, q, rem, d);
  }

  lemma Distribute(m: nat, q: int, r: int, d: int)
    ensures (m * q + r) * d == m * (q * d) + r * d
  {
  }

  /** `adler32_combine_`: the checksum of a concatenation from those of its parts. */
  method Adler32Combine(adler1: nat, adler2: nat, len2: nat, ghost a: seq<nat>, ghost b: seq<nat>) returns (r: nat)
    requires adler1 == Pack(Adler(ONE, a)) && adler2 == Pack(Adler(ONE, b)) && len2 == |b|
    ensures r == Pack(Adler(ONE, a + b))
  {
    hide Adler, Raw, Pack, Unpack, Times;
    ghost var x, y := Adler(ONE, a), Adler(ONE, b);
    Parts(a, b);
    PackUnpack(x);
    PackUnpack(y);
    Halves(adler1);
    Halves(adler2);
    r := CombineSums(adler1 % 65536, adler1 / 65536 % 65536, adler2 % 65536, adler2 / 65536 % 65536, len2);
  }

  lemma Halves(adler: nat)
    ensures Unpack(adler) == Sums(adler % 65536, adler / 65536 % 65536)
  {
  }

  /** The arithmetic of `adler32_combine_`. */
  method CombineSums(a1: nat, s1: nat, a2: nat, s2: nat, len2: nat) returns (r: nat)
    requires a1 < BASE && s1 < BASE && a2 < BASE && s2 < BASE
    ensures r == Pack(Sums((a1 + a2 + BASE - 1) % BASE, (s1 + s2 + Times(len2, a1 - 1)) % BASE))
  {
    hide Pack, Times;
    var rem := len2 % BASE;
    var sum1 := a1;
    var sum2 := rem * sum1;
    ghost var full := sum2;
    sum2 := sum2 % BASE;
    sum1 := sum1 + a2 + BASE - 1;
    sum2 := sum2 + s1 + s2 + BASE - rem;
    CombineSecond(a1, s1, s2, len2, rem, full, sum2);
    var t1 := Twice(sum1);
    ghost var want := (s1 + s2 + Times(len2, a1 - 1)) % BASE;
    if sum2 >= 2 * BASE {
      sum2 := sum2 - 2 * BASE;
    }
    if sum2 >= BASE {
      sum2 := sum2 - BASE;
    }
    assert sum2 == want;
    r := Pack(Sums(t1, sum2));
  }

  /** Two conditional subtractions. */
  method Twice(sum: nat) returns (r: nat)
    requires sum < 3 * BASE
    ensures r == sum % BASE
  {
    r := sum;
    if r >= BASE {
      r := r - BASE;
    }
    if r >= BASE {
      r := r - BASE;
    }
  }

  /** Both sums of the concatenation, from those of the parts. */
  lemma Parts(a: seq<nat>, b: seq<nat>)
    ensures var x, y, z := Adler(ONE, a), Adler(ONE, b), Adler(ONE, a + b);
      && Reduced(x) && Reduced(y) && Reduced(z)
      && z.a == (x.a + y.a + BASE - 1) % BASE
      && z.s == (x.s + y.s + Times(|b|, x.a - 1)) % BASE
  {
    hide Adler, Raw, Times;
    var x := Adler(ONE, a);
    AdlerReduced(ONE, a);
    AdlerReduced(ONE, b);
    AdlerReduced(ONE, a + b);
    AdlerAppend(ONE, a, b);
    Deferred(x, b);
    Deferred(ONE, b);
    assert Mod(x) == x && Mod(ONE) == ONE;
    RawShift(x, ONE, b, x.a - 1);
    PartsMod(x, Raw(x, b), Raw(ONE, b), Times(|b|, x.a - 1));
  }

  lemma PartsMod(x: Sums, p: Sums, q: Sums, e: int)
    requires Reduced(x) && p.a == q.a + (x.a - 1) && p.s - x.s == q.s + e
    ensures p.a % BASE == (x.a + q.a % BASE + BASE - 1) % BASE && p.s % BASE == (x.s + q.s % BASE + e) % BASE
  {
    Congruent(p.s, q.s, x.s + e);
    Congruent(p.a, q.a, x.a - 1);
  }

  lemma Congruent(p: int, q: int, e: int)
    requires p == q + e
    ensures p % BASE == (q % BASE + e) % BASE
  {
  }

  /** The second sum as the code computes it. */
  lemma CombineSecond(a1: nat, s1: nat, s2: nat, n: nat, rem: nat, full: nat, sum2: nat)
    requires a1 < BASE && s1 < BASE && s2 < BASE && rem == n % BASE && full == rem * a1
    requires sum2 == full % BASE + s1 + s2 + BASE - rem
    ensures sum2 < 4 * BASE && (rem == 0 ==> sum2 < 3 * BASE)
    ensures sum2 % BASE == (s1 + s2 + Times(n, a1 - 1)) % BASE
  {
    var k := ModProduct(n, a1 - 1, rem);
    Distribute(1, rem, 0, a1);
    assert rem * (a1 - 1) == full - rem by { LessOne(rem, a1); }
    SecondMod(s1 + s2, full, rem, n * (a1 - 1), k, sum2);
    if rem == 0 {
      assert full == 0 by { ZeroTimes(a1); }
    }
  }

  lemma LessOne(r: int, a: int)
    ensures r * (a - 1) == r * a - r
  {
  }

  lemma ZeroTimes(a: int)
    ensures 0 * a == 0
  {
  }

  lemma SecondMod(s: int, full: nat, rem: nat, p: int, k: int, sum2: nat)
    requires p == full - rem + BASE * k && sum2 == full % BASE + s + BASE - rem
    ensures sum2 % BASE == (s + p) % BASE
  {
    assert s + p == sum2 + BASE * (full / BASE + k - 1);
    Multiple(sum2, full / BASE + k - 1);
  }

  lemma Multiple(x: int, m: int)
    ensures (x + BASE * m) % BASE == x % BASE
  {
  }

  // ---------------------------------------------------------------- the two sums

  /** All bytes. */
  function Total(bytes: seq<nat>): nat {
    if |bytes| == 0 then 0 else bytes[0] + Total(bytes[1..])
  }

  /** All bytes, each as often as there are bytes from it to the end. */
  function Weighted(bytes: seq<nat>): nat {
    if |bytes| == 0 then 0 else |bytes| * bytes[0] + Weighted(bytes[1..])
  }

  lemma {:induction false} RawSums(x: Sums, bytes: seq<nat>)
    ensures Raw(x, bytes) == Sums(x.a + Total(bytes), x.s + |bytes| * x.a + Weighted(bytes))
    decreases |bytes|
  {
    if |bytes| != 0 {
      var a, n := x.a + bytes[0], |bytes|;
      RawSums(Sums(a, x.s + a), bytes[1..]);
      assert a + (n - 1) * a == n * x.a + n * bytes[0];
    }
  }

  /** The checksum in closed form: modulo 65521, one plus all bytes, and in the upper half the
      number of bytes plus all bytes by their distance from the end. */
  lemma AdlerIs(bytes: seq<nat>)
    ensures Pack(Adler(ONE, bytes)) ==
      (|bytes| + Weighted(bytes)) % 65521 * 65536 + (1 + Total(bytes)) % 65521
  {
    Deferred(ONE, bytes);
    RawSums(ONE, bytes);
    hide Adler, Raw, Weighted, Total;
    assert Mod(ONE) == ONE;
  }
}

/** CRC-32 of lib/libgz/crc32.c: tables, the little-endian word loop, and `crc32_combine_`.
    A 32-bit word is a vector over GF(2), lowest bit first; exclusive-or adds vectors. */
module Crc {
  import opened Bits
  import opened BitIO

  const DIM: nat := 32

  type Word = seq<bool>

  function Zero(n: nat): (z: Word)
    ensures |z| == n && forall i :: 0 <= i < n ==> !z[i]
  {
    seq(n, _ => false)
  }

  function Xor(a: Word, b: Word): (r: Word)
    requires |a| == |b|
    ensures |r| == |a| && forall i :: 0 <= i < |r| ==> r[i] == (a[i] != b[i])
  {
    seq(|a|, i requires 0 <= i < |a| => a[i] != b[i])
  }

  function Not(a: Word): (r: Word)
    ensures |r| == |a| && forall i :: 0 <= i < |r| ==> r[i] == !a[i]
  {
    seq(|a|, i requires 0 <= i < |a| => !a[i])
  }

  /** 0xedb88320: the terms of the polynomial below x^32, lowest power in the highest bit. */
  const POLY: Word := [
    false, false, false, false, false, true, false, false,
    true, true, false, false, false, false, false, true,
    false, false, false, true, true, true, false, true,
    true, false, true, true, false, true, true, true]

  lemma PolySize()
    ensures |POLY| == DIM
  {
  }

  // ---------------------------------------------------------------- the register

  /** One zero bit: multiply by x modulo the polynomial. */
  function Step(c: Word): (r: Word)
    requires |c| == DIM
    ensures |r| == DIM
  {
    PolySize();
    var s := c[1..] + [false];
    if c[0] then Xor(POLY, s) else s
  }

  /** `n` zero bits. */
  function Zeros(c: Word, n: nat): (r: Word)
    requires |c| == DIM
    ensures |r| == DIM
    decreases n
  {
    if n == 0 then c else Zeros(Step(c), n - 1)
  }

  /** The bits of a message, one at a time. */
  function Feed(c: Word, bits: seq<bool>): (r: Word)
    requires |c| == DIM
    ensures |r| == DIM
    decreases |bits|
  {
    if |bits| == 0 then c else Feed(Step(c[0 := c[0] != bits[0]]), bits[1..])
  }

  /** The CRC of section 8 of RFC 1952: register preset to ones, bytes lowest bit first,
      result complemented. `crc` is that of what came before. */
  function Crc32(crc: Word, bytes: seq<nat>): Word
    requires |crc| == DIM
  {
    Not(Feed(Not(crc), ByteBits(bytes)))
  }

  lemma StepLinear(a: Word, b: Word)
    requires |a| == |b| == DIM
    ensures Step(Xor(a, b)) == Xor(Step(a), Step(b))
  {
    PolySize();
    assert Xor(a, b)[1..] + [false] == Xor(a[1..] + [false], b[1..] + [false]);
  }

  lemma {:induction false} ZerosLinear(a: Word, b: Word, n: nat)
    requires |a| == |b| == DIM
    ensures Zeros(Xor(a, b), n) == Xor(Zeros(a, n), Zeros(b, n))
    decreases n
  {
    hide Step;
    if n != 0 {
      StepLinear(a, b);
      ZerosLinear(Step(a), Step(b), n - 1);
    }
  }

  lemma {:induction false} ZerosAdd(c: Word, m: nat, n: nat)
    requires |c| == DIM
    ensures Zeros(c, m + n) == Zeros(Zeros(c, m), n)
    decreases m
  {
    hide Step;
    if m != 0 {
      ZerosAdd(Step(c), m - 1, n);
    }
  }

  /** Low bits that are zero are shifted out. */
  lemma {:induction false} ZerosShift(x: Word, k: nat)
    requires |x| + k == DIM
    ensures Zeros(Zero(k) + x, k) == x + Zero(k)
    decreases k
  {
    var c := Zero(k) + x;
    if k == 0 {
      assert c == x && x + Zero(0) == x;
    } else {
      assert Step(c) == Zero(k - 1) + (x + [false]);
      ZerosShift(x + [false], k - 1);
      assert x + [false] + Zero(k - 1) == x + Zero(k);
    }
  }

  lemma {:induction false} FeedAppend(c: Word, a: seq<bool>, b: seq<bool>)
    requires |c| == DIM
    ensures Feed(c, a + b) == Feed(Feed(c, a), b)
    decreases |a|
  {
    hide Step;
    if |a| == 0 {
      assert a + b == b;
    } else {
      assert (a + b)[1..] == a[1..] + b;
      FeedAppend(Step(c[0 := c[0] != a[0]]), a[1..], b);
    }
  }

  /** Up to 32 bits can be added to the register first and shifted through it then. */
  lemma {:induction false} FeedWord(c: Word, bits: seq<bool>)
    requires |c| == DIM && |bits| <= DIM
    ensures Feed(c, bits) == Zeros(Xor(c, bits + Zero(DIM - |bits|)), |bits|)
    decreases |bits|
  {
    var n := |bits|;
    if n == 0 {
      assert Xor(c, [] + Zero(DIM)) == c;
    } else {
      var c' := c[0 := c[0] != bits[0]];
      AddThenShift(c, bits);
      hide Step;
      FeedWord(Step(c'), bits[1..]);
    }
  }

  lemma AddThenShift(c: Word, bits: seq<bool>)
    requires |c| == DIM && 0 < |bits| <= DIM
    ensures Step(Xor(c, bits + Zero(DIM - |bits|))) ==
            Xor(Step(c[0 := c[0] != bits[0]]), bits[1..] + Zero(DIM - (|bits| - 1)))
  {
    var n := |bits|;
    var c' := c[0 := c[0] != bits[0]];
    var rest := [false] + (bits[1..] + Zero(DIM - n));
    assert Xor(c, bits + Zero(DIM - n)) == Xor(c', rest);
    StepLinear(c', rest);
    assert Step(rest) == bits[1..] + Zero(DIM - (n - 1));
  }

  /** The checksum of a message is that of its parts, one after the other. */
  lemma CrcAppend(crc: Word, a: seq<nat>, b: seq<nat>)
    requires |crc| == DIM
    ensures Crc32(crc, a + b) == Crc32(Crc32(crc, a), b)
  {
    hide Feed, ByteBits;
    ByteBitsAppend(a, b);
    FeedAppend(Not(crc), ByteBits(a), ByteBits(b));
    var r := Feed(Feed(Not(crc), ByteBits(a)), ByteBits(b));
    var m := Feed(Not(crc), ByteBits(a));
    assert Not(Not(m)) == m;
  }

  // ---------------------------------------------------------------- tables

  /** A byte as a word. */
  function ByteWord(n: nat): (r: Word)
    ensures |r| == DIM
  {
    BitsOf(n, 8) + Zero(24)
  }

  /** A byte followed by `k` zero bytes. */
  ghost function Entry(k: nat, n: nat): Word {
    Zeros(ByteWord(n), 8 * (k + 1))
  }

  ghost predicate Tables(t: array2<Word>)
    reads t
  {
    t.Length0 == 4 && t.Length1 == 256 && forall k, n :: 0 <= k < 4 && 0 <= n < 256 ==> t[k, n] == Entry(k, n)
  }

  /** Eight zero bits: look up the low byte, shift the rest. */
  lemma ZerosByte(c: Word)
    requires |c| == DIM
    ensures Zeros(c, 8) == Xor(Zeros(c[..8] + Zero(24), 8), c[8..] + Zero(8))
  {
    hide Step, Zeros;
    assert c == Xor(c[..8] + Zero(24), Zero(8) + c[8..]);
    ZerosLinear(c[..8] + Zero(24), Zero(8) + c[8..], 8);
    ZerosShift(c[8..], 8);
  }

  lemma IndexBound(bits: seq<bool>)
    requires |bits| == 8
    ensures ValueOf(bits) < 256 && BitsOf(ValueOf(bits), 8) == bits
  {
    BitsValue(bits);
    ValueBits(ValueOf(bits), 8);
    Split(ValueOf(bits), 8);
    Powers();
  }

  lemma WordOfByte(n: nat)
    requires n < 256
    ensures BitsOf(n, DIM) == ByteWord(n)
  {
    BitsSplit(n, 8, 24);
    Powers();
    LowSmall(n, 8);
    ZeroBits(24);
  }

  lemma {:induction false} ZeroBits(n: nat)
    ensures BitsOf(0, n) == Zero(n)
  {
    if n != 0 {
      ZeroBits(n - 1);
    }
  }

  /** `make_crc_table`, the little-endian half. */
  method MakeTable() returns (t: array2<Word>)
    ensures fresh(t) && Tables(t)
  {
    t := new Word[4, 256]((_, _) => Zero(DIM));
    for n := 0 to 256
      invariant forall m :: 0 <= m < n ==> t[0, m] == Entry(0, m)
    {
      t[0, n] := ByteEntry(n);
    }
    for n := 0 to 256
      invariant forall m :: 0 <= m < 256 ==> t[0, m] == Entry(0, m)
      invariant forall k, m :: 0 <= k < 4 && 0 <= m < n ==> t[k, m] == Entry(k, m)
    {
      FillColumn(t, n);
    }
  }

  /** A byte shifted through the register. */
  method ByteEntry(n: nat) returns (c: Word)
    requires n < 256
    ensures c == Entry(0, n)
  {
    c := BitsOf(n, DIM);
    WordOfByte(n);
    hide ByteWord, BitsOf;
    for k := 0 to 8
      invariant |c| == DIM && Zeros(c, 8 - k) == Entry(0, n)
    {
      var s := c[1..] + [false];
      c := if c[0] then Xor(POLY, s) else s;
    }
  }

  /** The entries of byte `n` in the other tables. */
  method FillColumn(t: array2<Word>, n: nat)
    requires t.Length0 == 4 && t.Length1 == 256 && n < 256 && forall m :: 0 <= m < 256 ==> t[0, m] == Entry(0, m)
    modifies t
    ensures forall k, m :: 0 <= k < 4 && 0 <= m < 256 && m != n ==> t[k, m] == old(t[k, m])
    ensures forall k :: 0 <= k < 4 ==> t[k, n] == Entry(k, n)
  {
    hide Entry;
    var c := t[0, n];
    for k := 1 to 4
      invariant c == Entry(k - 1, n)
      invariant forall l, m :: 0 <= l < 4 && 0 <= m < 256 && (m != n || k <= l || l == 0) ==> t[l, m] == old(t[l, m])
      invariant forall l :: 0 <= l < k ==> t[l, n] == Entry(l, n)
    {
      NextEntry(k, n);
      c := Xor(t[0, ValueOf(c[..8])], c[8..] + Zero(8));
      t[k, n] := c;
    }
  }

  lemma NextEntry(k: nat, n: nat)
    requires 1 <= k
    ensures var c := Entry(k - 1, n);
      && |c| == DIM && ValueOf(c[..8]) < 256 && |Entry(0, ValueOf(c[..8]))| == DIM
      && Entry(k, n) == Xor(Entry(0, ValueOf(c[..8])), c[8..] + Zero(8))
  {
    hide Zeros, ByteWord;
    var c := Entry(k - 1, n);
    ZerosAdd(ByteWord(n), 8 * k, 8);
    ZerosByte(c);
    ByteLookup(c[..8]);
  }

  /** Looking up a byte in table `k`. */
  lemma ByteLookup(bits: seq<bool>)
    requires |bits| == 8
    ensures ValueOf(bits) < 256 && ByteWord(ValueOf(bits)) == bits + Zero(24)
    ensures forall k: nat :: Entry(k, ValueOf(bits)) == Zeros(bits + Zero(24), 8 * (k + 1))
  {
    IndexBound(bits);
  }

  // ---------------------------------------------------------------- crc32_little

  /** One byte through the first table. */
  method UpdateByte(t: array2<Word>, c: Word, b: nat) returns (r: Word)
    requires Tables(t) && |c| == DIM
    ensures r == Feed(c, BitsOf(b, 8))
  {
    hide Feed, Zeros, BitsOf, ValueOf;
    var low := Xor(c[..8], BitsOf(b, 8));
    ByteLookup(low);
    assert t[0, ValueOf(low)] == Entry(0, ValueOf(low));
    r := Xor(t[0, ValueOf(low)], c[8..] + Zero(8));
    FeedWord(c, BitsOf(b, 8));
    var x := Xor(c, BitsOf(b, 8) + Zero(24));
    ZerosByte(x);
    assert x[..8] == low && x[8..] == c[8..];
  }

  /** The four bytes of a word go through as many zero bits as lie behind them. */
  lemma ZerosWord(x: Word)
    requires |x| == DIM
    ensures Zeros(x, 32) == Xor(Xor(Xor(Zeros(x[..8] + Zero(24), 32), Zeros(x[8..16] + Zero(24), 24)),
                                    Zeros(x[16..24] + Zero(24), 16)), Zeros(x[24..] + Zero(24), 8))
  {
    hide Zeros, Xor, Zero;
    var a, b, c, d := Part(x, 0), Part(x, 1), Part(x, 2), Part(x, 3);
    WordParts(x);
    ZerosLinear(Xor(Xor(a, b), c), d, 32);
    ZerosLinear(Xor(a, b), c, 32);
    ZerosLinear(a, b, 32);
    PartZeros(x);
  }

  /** Byte `i` of a word, the other bytes cleared. */
  ghost function Part(x: Word, i: nat): (r: Word)
    requires |x| == DIM && i < 4
    ensures |r| == DIM
  {
    Zero(8 * i) + (x[8 * i..8 * i + 8] + Zero(24 - 8 * i))
  }

  lemma WordParts(x: Word)
    requires |x| == DIM
    ensures x == Xor(Xor(Xor(Part(x, 0), Part(x, 1)), Part(x, 2)), Part(x, 3))
  {
    var a, b, c, d := Part(x, 0), Part(x, 1), Part(x, 2), Part(x, 3);
    forall j | 0 <= j < DIM
      ensures x[j] == Xor(Xor(Xor(a, b), c), d)[j]
    {
      PartBit(x, 0, j);
      PartBit(x, 1, j);
      PartBit(x, 2, j);
      PartBit(x, 3, j);
      hide Part;
    }
  }

  lemma PartBit(x: Word, i: nat, j: nat)
    requires |x| == DIM && i < 4 && j < DIM
    ensures Part(x, i)[j] == (8 * i <= j < 8 * i + 8 && x[j])
  {
  }

  lemma PartZeros(x: Word)
    requires |x| == DIM
    ensures Zeros(Part(x, 0), 32) == Zeros(x[..8] + Zero(24), 32)
    ensures Zeros(Part(x, 1), 32) == Zeros(x[8..16] + Zero(24), 24)
    ensures Zeros(Part(x, 2), 32) == Zeros(x[16..24] + Zero(24), 16)
    ensures Zeros(Part(x, 3), 32) == Zeros(x[24..] + Zero(24), 8)
  {
    hide Zeros;
    Skip(x[0..8], 0);
    Skip(x[8..16], 8);
    Skip(x[16..24], 16);
    Skip(x[24..32], 24);
    assert x[0..8] == x[..8] && x[24..32] == x[24..];
  }

  /** A byte with `k` zero bits below it. */
  lemma Skip(byte: seq<bool>, k: nat)
    requires |byte| == 8 && k <= 24
    ensures Zeros(Zero(k) + (byte + Zero(24 - k)), 32) == Zeros(byte + Zero(24), 32 - k)
  {
    hide Zeros;
    var x := byte + Zero(24 - k);
    ZerosAdd(Zero(k) + x, k, 32 - k);
    ZerosShift(x, k);
    assert x + Zero(k) == byte + Zero(24);
  }

  /** DOLIT4: four bytes through four tables. */
  method UpdateWord(t: array2<Word>, c: Word, four: seq<nat>) returns (r: Word)
    requires Tables(t) && |c| == DIM && |four| == 4
    ensures r == Feed(c, ByteBits(four))
  {
    hide Feed, Zeros, ValueOf, BitsOf;
    var w := BitsOf(four[0], 8) + BitsOf(four[1], 8) + BitsOf(four[2], 8) + BitsOf(four[3], 8);
    FourBytes(four);
    hide ByteBits;
    var x := Xor(c, w);
    FeedWord(c, w);
    assert w + Zero(0) == w;
    ByteLookup(x[..8]);
    ByteLookup(x[8..16]);
    ByteLookup(x[16..24]);
    ByteLookup(x[24..]);
    r := Xor(Xor(Xor(t[3, ValueOf(x[..8])], t[2, ValueOf(x[8..16])]), t[1, ValueOf(x[16..24])]),
      t[0, ValueOf(x[24..])]);
    ZerosWord(x);
  }

  lemma FourBytes(four: seq<nat>)
    requires |four| == 4
    ensures ByteBits(four) == BitsOf(four[0], 8) + BitsOf(four[1], 8) + BitsOf(four[2], 8) + BitsOf(four[3], 8)
  {
    assert four == [four[0]] + [four[1]] + [four[2]] + [four[3]];
    ByteBitsAppend([four[0]] + [four[1]] + [four[2]], [four[3]]);
    ByteBitsAppend([four[0]] + [four[1]], [four[2]]);
    ByteBitsAppend([four[0]], [four[1]]);
    ByteBitsOne(four[0]);
    ByteBitsOne(four[1]);
    ByteBitsOne(four[2]);
    ByteBitsOne(four[3]);
  }

  /** Bytes from `i` on, one at a time, up to `j`. */
  method UpdateBytes(t: array2<Word>, c0: Word, buf: seq<nat>, i: nat, j: nat) returns (c: Word)
    requires Tables(t) && |c0| == DIM && i <= j <= |buf|
    ensures |c| == DIM && c == Feed(c0, ByteBits(buf[i..j]))
  {
    hide Feed, ByteBits, Tables;
    c := c0;
    NoBytes(c0);
    assert buf[i..i] == [];
    for k := i to j
      invariant |c| == DIM && c == Feed(c0, ByteBits(buf[i..k]))
    {
      FedMore(c0, buf, i, k, k + 1);
      assert buf[k..k + 1] == [buf[k]];
      ByteBitsOne(buf[k]);
      c := UpdateByte(t, c, buf[k]);
    }
  }

  lemma NoBytes(c: Word)
    requires |c| == DIM
    ensures Feed(c, ByteBits([])) == c
  {
  }

  lemma FedMore(c: Word, buf: seq<nat>, i: nat, k: nat, l: nat)
    requires |c| == DIM && i <= k <= l <= |buf|
    ensures Feed(c, ByteBits(buf[i..l])) == Feed(Feed(c, ByteBits(buf[i..k])), ByteBits(buf[k..l]))
  {
    hide Feed, ByteBits;
    assert buf[i..l] == buf[i..k] + buf[k..l];
    ByteBitsAppend(buf[i..k], buf[k..l]);
    FeedAppend(c, ByteBits(buf[i..k]), ByteBits(buf[k..l]));
  }

  /** `crc32_little`, for a buffer at an address of `skew` modulo 4: single bytes up to an
      aligned address, then words, then the rest. It is the bit-at-a-time checksum. */
  method Crc32Little(t: array2<Word>, crc: Word, buf: seq<nat>, skew: nat) returns (r: Word)
    requires Tables(t) && |crc| == DIM && skew < 4
    ensures r == Crc32(crc, buf)
  {
    hide Feed, ByteBits, Tables;
    var first := if skew == 0 then 0 else 4 - skew;
    if first > |buf| {
      first := |buf|;
    }
    ghost var c0 := Not(crc);
    var c := UpdateBytes(t, Not(crc), buf, 0, first);
    var i := first;
    while |buf| - i >= 4
      invariant first <= i <= |buf| && |c| == DIM && c == Feed(c0, ByteBits(buf[0..i]))
      decreases |buf| - i
    {
      FedMore(c0, buf, 0, i, i + 4);
      c := UpdateWord(t, c, buf[i..i + 4]);
      i := i + 4;
    }
    FedMore(c0, buf, 0, i, |buf|);
    c := UpdateBytes(t, c, buf, i, |buf|);
    assert buf[0..|buf|] == buf;
    r := Not(c);
  }

  // ---------------------------------------------------------------- matrices over GF(2)

  function Unit(i: nat): (r: Word)
    requires i < DIM
    ensures |r| == DIM
  {
    Zero(i) + [true] + Zero(DIM - 1 - i)
  }

  /** Column `i` is what `n` zero bits make of the i-th unit vector. */
  ghost predicate Operator(mat: seq<Word>, n: nat) {
    |mat| == DIM && forall i :: 0 <= i < DIM ==> mat[i] == Zeros(Unit(i), n)
  }

  /** The first `k` bits of a word, the others cleared. */
  ghost function Head(w: Word, k: nat): (r: Word)
    requires |w| == DIM && k <= DIM
    ensures |r| == DIM
  {
    w[..k] + Zero(DIM - k)
  }

  lemma HeadNext(w: Word, k: nat)
    requires |w| == DIM && k < DIM
    ensures Head(w, k + 1) == if w[k] then Xor(Head(w, k), Unit(k)) else Head(w, k)
  {
  }

  lemma {:induction false} ZerosOfZero(n: nat)
    ensures Zeros(Zero(DIM), n) == Zero(DIM)
  {
    if n != 0 {
      assert Step(Zero(DIM)) == Zero(DIM);
      ZerosOfZero(n - 1);
    }
  }

  /** `gf2_matrix_times`: by linearity, multiplying applies the operator. */
  method MatrixTimes(mat: array<Word>, vec0: Word, ghost n: nat) returns (sum: Word)
    requires |vec0| == DIM && Operator(mat[..], n)
    ensures |sum| == DIM && sum == Zeros(vec0, n)
  {
    hide Zeros, ValueOf, BitsOf, Shr, Unit, Head;
    var vec := ValueOf(vec0);
    var k := 0;
    sum := Zero(DIM);
    StartTimes(vec0, n);
    while vec != 0
      invariant k <= DIM && vec == Shr(ValueOf(vec0), k) && |sum| == DIM && sum == Zeros(Head(vec0, k), n)
      decreases vec
    {
      NextBit(vec0, k);
      HeadNext(vec0, k);
      if vec % 2 == 1 {
        assert mat[..][k] == mat[k];
        ZerosLinear(Head(vec0, k), Unit(k), n);
        sum := Xor(sum, mat[k]);
      }
      vec := vec / 2;
      k := k + 1;
    }
    EndTimes(vec0, k);
  }

  lemma StartTimes(w: Word, n: nat)
    requires |w| == DIM
    ensures Zeros(Head(w, 0), n) == Zero(DIM) && Shr(ValueOf(w), 0) == ValueOf(w)
  {
    assert Head(w, 0) == Zero(DIM);
    ZerosOfZero(n);
  }

  /** The lowest bit of what is left of the vector. */
  lemma NextBit(w: Word, k: nat)
    requires |w| == DIM && k <= DIM && Shr(ValueOf(w), k) != 0
    ensures k < DIM && (w[k] <==> Shr(ValueOf(w), k) % 2 == 1) && Shr(ValueOf(w), k + 1) == Shr(ValueOf(w), k) / 2
  {
    ShrValue(w, k);
    if k < DIM {
      assert w[k..][0] == w[k];
      ShrValue(w, k + 1);
      assert w[k..][1..] == w[k + 1..];
    }
  }

  lemma {:induction false} ShrValue(s: seq<bool>, k: nat)
    requires k <= |s|
    ensures Shr(ValueOf(s), k) == ValueOf(s[k..])
  {
    if k == 0 {
      assert s[0..] == s;
    } else {
      ShrValue(s[1..], k - 1);
      assert s[1..][k - 1..] == s[k..];
    }
  }

  lemma EndTimes(w: Word, k: nat)
    requires |w| == DIM && k <= DIM && Shr(ValueOf(w), k) == 0
    ensures Head(w, k) == w
  {
    ShrValue(w, k);
    AllClear(w[k..]);
    forall j | k <= j < DIM
      ensures !w[j]
    {
      assert w[k..][j - k] == w[j];
    }
  }

  lemma {:induction false} AllClear(s: seq<bool>)
    requires ValueOf(s) == 0
    ensures forall i :: 0 <= i < |s| ==> !s[i]
  {
    if |s| != 0 {
      AllClear(s[1..]);
    }
  }

  /** `gf2_matrix_square`: twice as many zero bits. */
  method MatrixSquare(square: array<Word>, mat: array<Word>, ghost n: nat)
    requires square != mat && square.Length == mat.Length == DIM && Operator(mat[..], n)
    modifies square
    ensures Operator(square[..], n + n)
  {
    hide Zeros, Unit;
    for i := 0 to DIM
      invariant forall j :: 0 <= j < i ==> square[j] == Zeros(Unit(j), n + n)
    {
      assert mat[..][i] == mat[i];
      ZerosAdd(Unit(i), n, n);
      square[i] := MatrixTimes(mat, mat[i], n);
    }
  }

  // ---------------------------------------------------------------- crc32_combine

  /** The operator for one zero bit: the polynomial, then the unit vectors. */
  method OneZeroBit(odd: array<Word>)
    requires odd.Length == DIM
    modifies odd
    ensures Operator(odd[..], 1)
  {
    odd[0] := POLY;
    FirstColumn();
    var row := Unit(0);
    for n := 1 to DIM
      invariant row == Unit(n - 1)
      invariant forall i :: 0 <= i < n ==> odd[i] == Zeros(Unit(i), 1)
    {
      odd[n] := row;
      NextColumn(n);
      row := [false] + row[..DIM - 1];
      assert row == Unit(n);
    }
  }

  lemma FirstColumn()
    ensures Zeros(Unit(0), 1) == POLY
  {
    PolySize();
    var c := Unit(0);
    assert c[0] && c[1..] + [false] == Zero(DIM);
    assert Zeros(c, 1) == Zeros(Step(c), 0) == Step(c);
  }

  lemma NextColumn(n: nat)
    requires 1 <= n < DIM
    ensures Zeros(Unit(n), 1) == Unit(n - 1)
  {
    var c := Unit(n);
    assert !c[0] && c[1..] + [false] == Unit(n - 1);
    assert Zeros(c, 1) == Zeros(Step(c), 0) == Step(c);
  }

  /** `len` times `n` zero bits. */
  ghost function Often(c: Word, n: nat, len: nat): (r: Word)
    requires |c| == DIM
    ensures |r| == DIM
    decreases len
  {
    if len == 0 then c else Often(Zeros(c, n), n, len - 1)
  }

  /** Half as often, twice as many. */
  lemma {:induction false} OftenHalf(c: Word, n: nat, len: nat)
    requires |c| == DIM
    ensures Often(c, n, len) == Often(if len % 2 == 1 then Zeros(c, n) else c, n + n, len / 2)
    decreases len
  {
    hide Zeros;
    if len >= 2 {
      ZerosAdd(c, n, n);
      OftenHalf(Zeros(Zeros(c, n), n), n, len - 2);
      ZerosSwap(c, n);
      assert (len - 2) % 2 == len % 2 && (len - 2) / 2 == len / 2 - 1;
    } else if len == 1 {
      assert Often(c, n, 1) == Often(Zeros(c, n), n, 0) == Zeros(c, n);
    }
  }

  lemma ZerosSwap(c: Word, n: nat)
    requires |c| == DIM
    ensures Zeros(Zeros(Zeros(c, n), n), n) == Zeros(Zeros(c, n), n + n) == Zeros(Zeros(c, n + n), n)
  {
    ZerosAdd(Zeros(c, n), n, n);
    ZerosAdd(c, n, n);
  }

  /** One round: square the operator, apply it if the lowest bit of the length is set. */
  method CombineRound(square: array<Word>, mat: array<Word>, crc: Word, len: nat, ghost n: nat)
    returns (crc': Word, len': nat)
    requires square != mat && square.Length == mat.Length == DIM && Operator(mat[..], n) && |crc| == DIM && 0 < len
    modifies square
    ensures Operator(square[..], n + n) && |crc'| == DIM && len' < len
    ensures Often(crc', (n + n) + (n + n), len') == Often(crc, n + n, len)
  {
    hide Zeros, Unit, Operator;
    MatrixSquare(square, mat, n);
    OftenHalf(crc, n + n, len);
    crc' := crc;
    if len % 2 == 1 {
      crc' := MatrixTimes(square, crc, n + n);
    }
    len' := len / 2;
  }

  /** `crc32_combine_`. */
  method Crc32Combine(crc1: Word, crc2: Word, len2: int) returns (r: Word)
    requires |crc1| == |crc2| == DIM
    ensures |r| == DIM
    ensures len2 <= 0 ==> r == crc1
    ensures 0 < len2 ==> r == Xor(Often(crc1, 8, len2), crc2)
    ensures forall a, b :: crc1 == Crc32(Zero(DIM), a) && crc2 == Crc32(Zero(DIM), b) && len2 == |b| ==>
      r == Crc32(Zero(DIM), a + b)
  {
    hide Operator, Often, Crc32;
    forall a, b | crc1 == Crc32(Zero(DIM), a) && crc2 == Crc32(Zero(DIM), b) && len2 == |b|
      ensures Crc32(Zero(DIM), a + b) == if len2 == 0 then crc1 else Xor(Often(crc1, 8, len2), crc2)
    {
      CombineIsConcatenation(a, b);
    }
    if len2 <= 0 {
      return crc1;
    }
    var even := new Word[DIM](_ => Zero(DIM));
    var odd := new Word[DIM](_ => Zero(DIM));
    OneZeroBit(odd);
    MatrixSquare(even, odd, 1);
    MatrixSquare(odd, even, 2);
    var crc, len: nat := crc1, len2;
    ghost var n := 4;
    while true
      invariant Operator(odd[..], n) && |crc| == DIM && 0 < len && Often(crc, n + n, len) == Often(crc1, 8, len2)
      decreases len
    {
      crc, len := CombineRound(even, odd, crc, len, n);
      n := n + n;
      if len == 0 {
        break;
      }
      crc, len := CombineRound(odd, even, crc, len, n);
      n := n + n;
      if len == 0 {
        break;
      }
    }
    OftenNone(crc, n + n);
    r := Xor(crc, crc2);
  }

  lemma OftenNone(c: Word, n: nat)
    requires |c| == DIM
    ensures Often(c, n, 0) == c
  {
  }

  lemma {:induction false} OftenLinear(a: Word, b: Word, n: nat, len: nat)
    requires |a| == |b| == DIM
    ensures Often(Xor(a, b), n, len) == Xor(Often(a, n, len), Often(b, n, len))
    decreases len
  {
    hide Zeros;
    if len != 0 {
      ZerosLinear(a, b, n);
      OftenLinear(Zeros(a, n), Zeros(b, n), n, len - 1);
    }
  }

  /** The effect of the old register and that of the new bytes are independent. */
  lemma {:induction false} FeedApart(c: Word, bytes: seq<nat>)
    requires |c| == DIM
    ensures Feed(c, ByteBits(bytes)) == Xor(Often(c, 8, |bytes|), Feed(Zero(DIM), ByteBits(bytes)))
    decreases |bytes|
  {
    hide Feed, Zeros, BitsOf, ByteBits;
    var n := |bytes|;
    if n == 0 {
      NoBytes(c);
      NoBytes(Zero(DIM));
      assert Xor(c, Zero(DIM)) == c;
    } else {
      var rest := bytes[1..];
      var c1, z1 := Zeros(c, 8), Zeros(ByteWord(bytes[0]), 8);
      FrontByte(c, bytes);
      FrontByte(Zero(DIM), bytes);
      ZerosOfZero(8);
      assert Xor(Zero(DIM), z1) == z1;
      FeedApart(Xor(c1, z1), rest);
      FeedApart(z1, rest);
      OftenLinear(c1, z1, 8, n - 1);
      XorAssoc(Often(c1, 8, n - 1), Often(z1, 8, n - 1), Feed(Zero(DIM), ByteBits(rest)));
    }
  }

  lemma FrontByte(c: Word, bytes: seq<nat>)
    requires |c| == DIM && |bytes| != 0
    ensures Feed(c, ByteBits(bytes)) == Feed(Xor(Zeros(c, 8), Zeros(ByteWord(bytes[0]), 8)), ByteBits(bytes[1..]))
  {
    var byte := BitsOf(bytes[0], 8);
    assert ByteBits(bytes) == byte + ByteBits(bytes[1..]);
    hide Feed, Zeros, ByteBits;
    FeedAppend(c, byte, ByteBits(bytes[1..]));
    FeedWord(c, byte);
    ZerosLinear(c, ByteWord(bytes[0]), 8);
  }

  lemma XorAssoc(a: Word, b: Word, c: Word)
    requires |a| == |b| == |c|
    ensures Xor(Xor(a, b), c) == Xor(a, Xor(b, c))
  {
  }

  /** What `crc32_combine_` computes from the checksums of two messages and the length of the
      second is the checksum of their concatenation. */
  lemma CombineIsConcatenation(a: seq<nat>, b: seq<nat>)
    ensures var crc1, crc2 := Crc32(Zero(DIM), a), Crc32(Zero(DIM), b);
      && |crc1| == |crc2| == DIM
      && Crc32(Zero(DIM), a + b) == (if |b| == 0 then crc1 else Xor(Often(crc1, 8, |b|), crc2))
  {
    var n := |b|;
    CrcAppend(Zero(DIM), a, b);
    if n == 0 {
      assert a + b == a;
    } else {
      hide Feed, Often, ByteBits;
      var crc1 := Crc32(Zero(DIM), a);
      var r, ones, z := Not(crc1), Not(Zero(DIM)), Feed(Zero(DIM), ByteBits(b));
      FeedApart(r, b);
      FeedApart(ones, b);
      assert r == Xor(crc1, ones);
      OftenLinear(crc1, ones, 8, n);
      Complements(Often(crc1, 8, n), Often(ones, 8, n), z);
    }
  }

  lemma Complements(p: Word, q: Word, z: Word)
    requires |p| == |q| == |z|
    ensures Not(Xor(Xor(p, q), z)) == Xor(p, Not(Xor(q, z)))
  {
  }

  // ---------------------------------------------------------------- the remainder

  /** The terms of the generator x^32 + x^26 + x^23 + x^22 + x^16 + x^12 + x^11 + x^10 + x^8 +
      x^7 + x^5 + x^4 + x^2 + x + 1. */
  predicate HasTerm(e: int) {
    e in {32, 26, 23, 22, 16, 12, 11, 10, 8, 7, 5, 4, 2, 1, 0}
  }

  /** Its coefficients, highest power first. */
  function Generator(): (g: seq<bool>)
    ensures |g| == 33
  {
    seq(33, i => HasTerm(32 - i))
  }

  /** The product of the polynomial `q` with the generator, highest power first. */
  function Multiple(q: seq<bool>): (p: seq<bool>)
    ensures |p| == |q| + DIM
    decreases |q|
  {
    if |q| == 0 then Zero(DIM)
    else
      var rest := [false] + Multiple(q[1..]);
      if q[0] then Xor(Generator() + Zero(|q| - 1), rest) else rest
  }

  /** `r` is what is left of the polynomial `d` when a multiple of the generator is taken away. */
  ghost predicate Leaves(d: seq<bool>, r: Word)
    requires |r| == DIM <= |d|
  {
    exists q: seq<bool> :: |q| == |d| - DIM && Xor(d, Zero(|d| - DIM) + r) == Multiple(q)
  }

  lemma PolyLow(i: nat)
    requires i < 16
    ensures POLY[i] == HasTerm(31 - i)
  {
  }

  lemma PolyHigh(i: nat)
    requires 16 <= i < 32
    ensures |POLY| == 32 && POLY[i] == HasTerm(31 - i)
  {
  }

  /** The register's constant is the generator without its highest term. */
  lemma PolyTerms()
    ensures |POLY| == DIM && Generator() == [true] + POLY
  {
    hide POLY;
    PolySize();
    forall i | 0 <= i < DIM
      ensures Generator()[i + 1] == POLY[i]
    {
      if i < 16 { PolyLow(i); } else { PolyHigh(i); }
    }
  }

  /** The polynomial of a message behind register `c`: the message times x^32, with the
      register added to its first 32 coefficients. */
  function Dividend(c: Word, bits: seq<bool>): (d: seq<bool>)
    requires |c| == DIM
    ensures |d| == DIM + |bits|
  {
    Xor(bits + Zero(DIM), c + Zero(|bits|))
  }

  /** Feeding one bit takes the generator away under the leading coefficient, if it is set. */
  lemma DividendStep(c: Word, bits: seq<bool>)
    requires |c| == DIM && 0 < |bits|
    ensures var lead := c[0] != bits[0];
      var rest := [false] + Dividend(Step(c[0 := lead]), bits[1..]);
      Dividend(c, bits) == if lead then Xor(Generator() + Zero(|bits| - 1), rest) else rest
  {
    hide POLY;
    PolyTerms();
    var lead := c[0] != bits[0];
    var n := |bits| - 1;
    var c1 := Step(c[0 := lead]);
    var rest := [false] + Dividend(c1, bits[1..]);
    var d := Dividend(c, bits);
    var shifted := c[1..] + [false];
    assert c1 == if lead then Xor(POLY, shifted) else shifted;
    var e := if lead then Xor(Generator() + Zero(n), rest) else rest;
    forall i | 0 <= i < |d|
      ensures d[i] == e[i]
    {
      if 0 < i {
        assert rest[i] == Dividend(c1, bits[1..])[i - 1];
        if i <= DIM {
          assert (c1 + Zero(n))[i - 1] == c1[i - 1];
          assert (c + Zero(n + 1))[i] == shifted[i - 1];
        }
      }
    }
  }

  lemma {:induction false} FeedIsRemainder(c: Word, bits: seq<bool>)
    requires |c| == DIM
    ensures Leaves(Dividend(c, bits), Feed(c, bits))
    decreases |bits|
  {
    hide Step, Dividend, Leaves, Xor, Multiple, Generator;
    if |bits| == 0 {
      NoDividend(c, bits);
    } else {
      var lead := c[0] != bits[0];
      var c1 := Step(c[0 := lead]);
      DividendStep(c, bits);
      FeedIsRemainder(c1, bits[1..]);
      LeavesMore(Dividend(c, bits), Dividend(c1, bits[1..]), Feed(c, bits), lead);
    }
  }

  lemma LeavesMore(d: seq<bool>, d1: seq<bool>, r: Word, lead: bool)
    requires |r| == DIM <= |d1| && Leaves(d1, r) && |d| == |d1| + 1
    requires d == if lead then Xor(Generator() + Zero(|d1| - DIM), [false] + d1) else [false] + d1
    ensures Leaves(d, r)
  {
    hide Xor, Multiple, Generator;
    var q: seq<bool> :| |q| == |d1| - DIM && Xor(d1, Zero(|d1| - DIM) + r) == Multiple(q);
    TakenAway(d, d1, r, q, lead);
  }

  lemma NoDividend(c: Word, bits: seq<bool>)
    requires |c| == DIM && |bits| == 0
    ensures Leaves(Dividend(c, bits), c)
  {
    assert Dividend(c, bits) == c;
    LeavesBy(c, c, []);
  }

  lemma TakenAway(d: seq<bool>, d1: seq<bool>, r: Word, q: seq<bool>, lead: bool)
    requires |r| == DIM && |d1| == DIM + |q| && Xor(d1, Zero(|q|) + r) == Multiple(q) && |d| == |d1| + 1
    requires d == if lead then Xor(Generator() + Zero(|q|), [false] + d1) else [false] + d1
    ensures Leaves(d, r)
  {
    hide *;
    MultipleMore(q, lead);
    MorePadding(|q|, r);
    ShiftXor(d1, Zero(|q|) + r);
    if lead {
      XorAssoc(Generator() + Zero(|q|), [false] + d1, [false] + (Zero(|q|) + r));
    }
    LeavesBy(d, r, [lead] + q);
  }

  lemma LeavesBy(d: seq<bool>, r: Word, q: seq<bool>)
    requires |r| == DIM && |d| == DIM + |q| && Xor(d, Zero(|q|) + r) == Multiple(q)
    ensures Leaves(d, r)
  {
    hide Xor, Multiple;
  }

  lemma MorePadding(n: nat, r: Word)
    ensures Zero(n + 1) + r == [false] + (Zero(n) + r)
  {
  }

  lemma MultipleMore(q: seq<bool>, lead: bool)
    ensures var rest := [false] + Multiple(q);
      Multiple([lead] + q) == if lead then Xor(Generator() + Zero(|q|), rest) else rest
  {
    assert ([lead] + q)[1..] == q;
  }

  lemma ShiftXor(a: seq<bool>, b: seq<bool>)
    requires |a| == |b|
    ensures Xor([false] + a, [false] + b) == [false] + Xor(a, b)
  {
  }

  /** The checksum is the complement of the remainder of the message polynomial, times x^32 and
      with its first 32 coefficients complemented (section 8 of RFC 1952). */
  lemma CrcIsRemainder(bytes: seq<nat>)
    ensures |Crc32(Zero(DIM), bytes)| == DIM
    ensures var ones := Not(Zero(DIM));
      Leaves(Dividend(ones, ByteBits(bytes)), Not(Crc32(Zero(DIM), bytes)))
  {
    hide Feed, Dividend, ByteBits;
    var ones := Not(Zero(DIM));
    FeedIsRemainder(ones, ByteBits(bytes));
    var f := Feed(ones, ByteBits(bytes));
    assert Not(Not(f)) == f;
  }
}

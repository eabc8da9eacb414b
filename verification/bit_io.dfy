/** The two bit buffers of the deflate format: `send_bits`, `bi_flush` and `bi_windup` of
    lib/libgz/trees.c on the writing side, the `hold`/`bits` accumulator macros of
    lib/libgz/inflate.c on the reading side. Both are views of one sequence of bits, lowest
    bit of every byte first. */
module BitIO {
  import opened Bits

  /** The low `n` bits of `x`, lowest first. */
  function BitsOf(x: nat, n: nat): (s: seq<bool>)
    ensures |s| == n
  {
    if n == 0 then [] else [x % 2 == 1] + BitsOf(x / 2, n - 1)
  }

  /** The number whose bits are `s`. */
  function ValueOf(s: seq<bool>): nat {
    if |s| == 0 then 0 else (if s[0] then 1 else 0) + 2 * ValueOf(s[1..])
  }

  function ByteBits(bytes: seq<nat>): seq<bool> {
    if |bytes| == 0 then [] else BitsOf(bytes[0], 8) + ByteBits(bytes[1..])
  }

  lemma {:induction false} BitsConcat(lo: nat, k: nat, hi: nat, j: nat)
    requires lo < Pow2(k)
    ensures BitsOf(lo + Shl(hi, k), k + j) == BitsOf(lo, k) + BitsOf(hi, j)
  {
    if k != 0 {
      var x := lo + Shl(hi, k);
      assert x % 2 == lo % 2 && x / 2 == lo / 2 + Shl(hi, k - 1);
      BitsConcat(lo / 2, k - 1, hi, j);
    } else {
      assert BitsOf(lo, 0) + BitsOf(hi, j) == BitsOf(hi, j);
    }
  }

  lemma {:induction false} BitsSplit(x: nat, a: nat, b: nat)
    ensures BitsOf(x, a + b) == BitsOf(x, a) + BitsOf(Shr(x, a), b)
  {
    if a != 0 {
      BitsSplit(x / 2, a - 1, b);
    } else {
      assert BitsOf(x, 0) + BitsOf(x, b) == BitsOf(x, b);
    }
  }

  lemma {:induction false} BitsLow(x: nat, n: nat)
    ensures BitsOf(Low(x, n), n) == BitsOf(x, n)
  {
    if n != 0 {
      BitsLow(x / 2, n - 1);
    }
  }

  lemma {:induction false} ValueBits(x: nat, n: nat)
    ensures ValueOf(BitsOf(x, n)) == Low(x, n)
  {
    if n != 0 {
      ValueBits(x / 2, n - 1);
      assert BitsOf(x, n)[1..] == BitsOf(x / 2, n - 1);
    }
  }

  lemma {:induction false} BitsValue(s: seq<bool>)
    ensures BitsOf(ValueOf(s), |s|) == s
  {
    if |s| != 0 {
      BitsValue(s[1..]);
    }
  }

  lemma {:induction false} ByteBitsAppend(a: seq<nat>, b: seq<nat>)
    ensures ByteBits(a + b) == ByteBits(a) + ByteBits(b)
  {
    if |a| == 0 {
      assert a + b == b;
    } else {
      assert (a + b)[1..] == a[1..] + b;
      ByteBitsAppend(a[1..], b);
    }
  }

  lemma {:induction false} ByteBitsLength(a: seq<nat>)
    ensures |ByteBits(a)| == 8 * |a|
  {
    if |a| != 0 {
      ByteBitsLength(a[1..]);
    }
  }

  lemma ByteBitsOne(b: nat)
    ensures ByteBits([b]) == BitsOf(b, 8)
  {
    assert ByteBits([b][1..]) == [];
  }

  /** On numbers without common bits, or is addition. */
  lemma {:induction false} OrDisjoint(x: nat, y: nat, k: nat)
    requires x < Pow2(k)
    ensures Or(x, Shl(y, k)) == x + Shl(y, k)
  {
    if k == 0 {
      OrZero(y);
    } else {
      OrDisjoint(x / 2, y, k - 1);
    }
  }

  lemma {:induction false} OrZero(y: nat)
    ensures Or(0, y) == y
  {
    if y != 0 {
      OrZero(y / 2);
    }
  }

  const BUF_SIZE: nat := 16

  /** The output side: pending bytes and the 16-bit buffer. */
  class BitWriter {
    var pending: seq<nat>
    var biBuf: nat
    var biValid: nat

    ghost predicate Valid()
      reads this
    {
      biValid <= BUF_SIZE && biBuf < Pow2(biValid) && forall i :: 0 <= i < |pending| ==> pending[i] < 256
    }

    /** Everything written so far. */
    ghost function Stream(): seq<bool>
      reads this
    {
      ByteBits(pending) + BitsOf(biBuf, biValid)
    }

    constructor ()
      ensures Valid() && Stream() == []
    {
      pending, biBuf, biValid := [], 0, 0;
    }

    /** `put_short`: two bytes, low byte first. */
    method PutShort(w: nat)
      requires Valid() && w < Pow2(BUF_SIZE)
      modifies this`pending
      ensures Valid() && ByteBits(pending) == ByteBits(old(pending)) + BitsOf(w, BUF_SIZE)
    {
      pending := pending + [Low(w, 8), Shr(w, 8)];
      Powers();
      Split(w, 8);
      ShrBound(w, 8, 8);
      TwoBytes(w);
      ByteBitsAppend(old(pending), [Low(w, 8), Shr(w, 8)]);
    }

    /** `send_bits`: append the low `len` bits of `value`. */
    method SendBits(value: nat, len: nat)
      requires Valid() && len <= BUF_SIZE && value < Pow2(len)
      modifies this
      ensures Valid() && Stream() == old(Stream()) + BitsOf(value, len)
    {
      hide Shl, BitsOf, ByteBits, Or, Low, Shr;
      OrDisjoint(biBuf, value, biValid);
      if biValid > BUF_SIZE - len {
        var room := BUF_SIZE - biValid;
        SpillBits(biBuf, biValid, value, len);
        var w := Low(Or(biBuf, Shl(value, biValid)), BUF_SIZE);
        Split(Or(biBuf, Shl(value, biValid)), BUF_SIZE);
        PutShort(w);
        biBuf := Shr(value, room);
        biValid := biValid + len - BUF_SIZE;
        assert Stream() == ByteBits(old(pending)) + (BitsOf(old(biBuf), old(biValid)) + BitsOf(value, room))
          + BitsOf(biBuf, biValid);
        assert Stream() == old(Stream()) + (BitsOf(value, room) + BitsOf(biBuf, biValid));
      } else {
        FitBits(biBuf, biValid, value, len);
        biBuf := Low(Or(biBuf, Shl(value, biValid)), BUF_SIZE);
        biValid := biValid + len;
        assert Stream() == old(Stream()) + BitsOf(value, len);
      }
    }

    /** `bi_flush`: hand over full bytes, keeping at most seven bits. */
    method BiFlush()
      requires Valid()
      modifies this
      ensures Valid() && Stream() == old(Stream()) && biValid < 8
    {
      hide BitsOf, ByteBits, Low, Shr, Shl;
      if biValid == 16 {
        PutShort(biBuf);
        biBuf, biValid := 0, 0;
        EmptyBuffer();
      } else if biValid >= 8 {
        BitsSplit(biBuf, 8, biValid - 8);
        BitsLow(biBuf, 8);
        ByteBitsOne(Low(biBuf, 8));
        ByteBitsAppend(pending, [Low(biBuf, 8)]);
        ShrBound(biBuf, 8, biValid - 8);
        Split(biBuf, 8);
        Powers();
        pending := pending + [Low(biBuf, 8)];
        biBuf := Shr(biBuf, 8);
        biValid := biValid - 8;
        assert Stream() == old(Stream());
      }
    }

    /** `bi_windup`: pad with zero bits to a byte boundary. */
    method BiWindup() returns (ghost pad: nat)
      requires Valid()
      modifies this
      ensures Valid() && biValid == 0 && biBuf == 0 && pad < 8
      ensures Stream() == ByteBits(pending) == old(Stream()) + BitsOf(0, pad)
    {
      hide BitsOf, ByteBits, Shl;
      pad := if biValid > 8 then 16 - biValid else if biValid > 0 then 8 - biValid else 0;
      ShlZero(biValid);
      BitsConcat(biBuf, biValid, 0, pad);
      if biValid > 8 {
        Pow2Mono(biValid, 16);
        PutShort(biBuf);
      } else if biValid > 0 {
        Pow2Mono(biValid, 8);
        Powers();
        ByteBitsOne(biBuf);
        ByteBitsAppend(pending, [biBuf]);
        pending := pending + [biBuf];
      }
      biBuf, biValid := 0, 0;
      EmptyBuffer();
    }
  }

  lemma EmptyBuffer()
    ensures 0 < Pow2(0) && BitsOf(0, 0) == []
  {
    ShlMono(0, 1, 0);
  }

  lemma TwoBytes(w: nat)
    requires w < Pow2(BUF_SIZE)
    ensures ByteBits([Low(w, 8), Shr(w, 8)]) == BitsOf(w, BUF_SIZE)
  {
    BitsSplit(w, 8, 8);
    BitsLow(w, 8);
    ByteBitsOne(Shr(w, 8));
    assert [Low(w, 8), Shr(w, 8)][1..] == [Shr(w, 8)];
  }

  /** The value straddles the end of the buffer. */
  lemma SpillBits(buf: nat, valid: nat, value: nat, len: nat)
    requires valid <= BUF_SIZE && buf < Pow2(valid) && len <= BUF_SIZE && value < Pow2(len) && valid + len > BUF_SIZE
    ensures var room := BUF_SIZE - valid;
      && BitsOf(Low(buf + Shl(value, valid), BUF_SIZE), BUF_SIZE) == BitsOf(buf, valid) + BitsOf(value, room)
      && BitsOf(value, len) == BitsOf(value, room) + BitsOf(Shr(value, room), len - room)
      && Shr(value, room) < Pow2(len - room)
  {
    hide BitsOf, Low, Shr, Shl;
    var room := BUF_SIZE - valid;
    BitsLow(buf + Shl(value, valid), BUF_SIZE);
    BitsConcat(buf, valid, value, room);
    BitsSplit(value, room, len - room);
    ShrBound(value, room, len - room);
  }

  lemma FitBits(buf: nat, valid: nat, value: nat, len: nat)
    requires buf < Pow2(valid) && value < Pow2(len) && valid + len <= BUF_SIZE
    ensures var x := buf + Shl(value, valid);
      Low(x, BUF_SIZE) == x < Pow2(valid + len) && BitsOf(x, valid + len) == BitsOf(buf, valid) + BitsOf(value, len)
  {
    BitsConcat(buf, valid, value, len);
    ShlMono(value, Pow2(len), valid);
    ShlShl(1, len, valid);
    Pow2Mono(valid + len, BUF_SIZE);
    LowSmall(buf + Shl(value, valid), BUF_SIZE);
  }

  /** The last bytes taken from the input are the end of the accumulator `held`, when both
      are read from the stream `fed`. */
  lemma Unused(fed: seq<bool>, held: seq<bool>, input: seq<nat>, next0: nat, next: nat, k: nat)
    requires next0 + k <= next <= |input| && 8 * k <= |held|
    requires EndsWith(fed, ByteBits(input[next0..])) && EndsWith(fed, held + ByteBits(input[next..]))
    ensures held[|held| - 8 * k..] == ByteBits(input[next - k..next])
  {
    hide ByteBits;
    var t, u := ByteBits(input[next - k..next]), ByteBits(input[next..]);
    assert input[next - k..] == input[next - k..next] + input[next..];
    ByteBitsAppend(input[next - k..next], input[next..]);
    assert input[next0..] == input[next0..next - k] + input[next - k..];
    ByteBitsAppend(input[next0..next - k], input[next - k..]);
    ByteBitsLength(input[next - k..next]);
    EndsAlike(fed, ByteBits(input[next0..next - k]), t + u, held, u);
    assert (held + u)[|held| - 8 * k..] == held[|held| - 8 * k..] + u;
    SameBefore(held[|held| - 8 * k..], t, u);
  }

  ghost predicate EndsWith(s: seq<bool>, t: seq<bool>) {
    |t| <= |s| && s[|s| - |t|..] == t
  }

  lemma EndsAlike(fed: seq<bool>, a: seq<bool>, b: seq<bool>, c: seq<bool>, d: seq<bool>)
    requires EndsWith(fed, a + b) && EndsWith(fed, c + d) && |b| <= |c + d|
    ensures (c + d)[|c + d| - |b|..] == b
  {
    var n := |fed| - |b|;
    assert fed[n..] == fed[|fed| - |a + b|..][|a|..] == b;
    assert fed[n..] == fed[|fed| - |c + d|..][|c + d| - |b|..];
  }

  lemma SameBefore(a: seq<bool>, b: seq<bool>, c: seq<bool>)
    requires a + c == b + c
    ensures a == b
  {
    assert |a| == |b|;
    assert a == (a + c)[..|a|] && b == (b + c)[..|a|];
  }

  /** A byte on top of the accumulator. */
  lemma PullBits(hold: nat, bits: nat, b: nat)
    requires hold < Pow2(bits) && b < 256
    ensures var x := hold + Shl(b, bits);
      BitsOf(x, bits + 8) == BitsOf(hold, bits) + BitsOf(b, 8) && x < Pow2(bits + 8) && Low(x, bits) == hold
  {
    Powers();
    hide BitsOf, Shl, Low;
    BitsConcat(hold, bits, b, 8);
    SplitUnique(hold, b, bits);
    ShlMono(b, 256, bits);
    ShlShl(1, 8, bits);
  }

  lemma NextByte(input: seq<nat>, next: nat)
    requires next < |input|
    ensures ByteBits(input[next..]) == BitsOf(input[next], 8) + ByteBits(input[next + 1..])
  {
    assert input[next..][0] == input[next] && input[next..][1..] == input[next + 1..];
  }

  lemma NothingLeft(input: seq<nat>, next: nat)
    requires next == |input|
    ensures ByteBits(input[next..]) == []
  {
  }

  /** The input side: bytes not yet taken, and the bit accumulator. */
  class BitReader {
    var input: seq<nat>
    var next: nat
    var hold: nat
    var bits: nat

    ghost predicate Valid()
      reads this
    {
      && next <= |input| && hold < Pow2(bits)
      && forall i :: 0 <= i < |input| ==> input[i] < 256
    }

    /** Everything not yet consumed. */
    ghost function Rest(): seq<bool>
      requires next <= |input|
      reads this
    {
      BitsOf(hold, bits) + ByteBits(input[next..])
    }

    /** Bytes not yet taken: `avail_in`. */
    function Unread(): int
      reads this
    {
      |input| - next
    }

    constructor (data: seq<nat>)
      requires forall i :: 0 <= i < |data| ==> data[i] < 256
      ensures Valid() && input == data && Rest() == ByteBits(data)
    {
      input, next, hold, bits := data, 0, 0, 0;
      new;
      assert input[0..] == data;
      ShlMono(0, 1, 0);
      assert BitsOf(0, 0) + ByteBits(data) == ByteBits(data);
    }

    /** The caller supplies more input behind what is left of the old. */
    method Feed(chunk: seq<nat>)
      requires Valid() && forall i :: 0 <= i < |chunk| ==> chunk[i] < 256
      modifies this
      ensures Valid() && Rest() == old(Rest()) + ByteBits(chunk)
      ensures hold == old(hold) && bits == old(bits) && Unread() == old(Unread()) + |chunk|
    {
      ByteBitsAppend(input[next..], chunk);
      ghost var h := BitsOf(hold, bits);
      input, next := input[next..] + chunk, 0;
      assert input[next..] == input;
      assert Rest() == old(Rest()) + ByteBits(chunk);
    }

    /** PULLBYTE, when there is a byte. */
    method PullByte()
      requires Valid() && next < |input|
      modifies this
      ensures Valid() && Rest() == old(Rest()) && bits == old(bits) + 8 && next == old(next) + 1 && input == old(input)
      ensures Low(hold, old(bits)) == old(hold)
    {
      hide BitsOf, ByteBits, Shl, Low;
      var b := input[next];
      NextByte(input, next);
      PullBits(hold, bits, b);
      ghost var h, tail := BitsOf(hold, bits), ByteBits(input[next + 1..]);
      assert h + (BitsOf(b, 8) + tail) == h + BitsOf(b, 8) + tail;
      hold := hold + Shl(b, bits);
      bits := bits + 8;
      next := next + 1;
    }

    /** NEEDBITS: at least `n` bits in the accumulator, unless the input ends first. */
    method NeedBits(n: nat) returns (ok: bool)
      requires Valid()
      modifies this
      ensures Valid() && Rest() == old(Rest()) && input == old(input)
      ensures ok <==> n <= |old(Rest())|
      ensures ok ==> n <= bits
      ensures !ok ==> next == |input|
      ensures bits <= n + 7 || (bits == old(bits) && hold == old(hold))
      ensures bits % 8 == old(bits) % 8
    {
      hide BitsOf, ByteBits, Low, Shl;
      while bits < n
        invariant Valid() && Rest() == old(Rest()) && input == old(input)
        invariant bits <= n + 7 || (bits == old(bits) && hold == old(hold))
        invariant bits % 8 == old(bits) % 8
        decreases |input| - next
      {
        if next == |input| {
          NothingLeft(input, next);
          return false;
        }
        PullByte();
      }
      return true;
    }

    /** BITS: the low `n` bits. */
    function Peek(n: nat): nat
      reads this
    {
      Low(hold, n)
    }

    /** DROPBITS. */
    method DropBits(n: nat)
      requires Valid() && n <= bits
      modifies this
      ensures Valid() && n <= |old(Rest())| && Rest() == old(Rest())[n..] && next == old(next) && input == old(input)
      ensures bits == old(bits) - n && hold == Shr(old(hold), n)
    {
      BitsSplit(hold, n, bits - n);
      ShrBound(hold, n, bits - n);
      hold := Shr(hold, n);
      bits := bits - n;
      assert Rest() == old(Rest())[n..];
    }

    /** Take `n` whole bytes past an empty accumulator. */
    method SkipBytes(n: nat)
      requires Valid() && bits == 0 && next + n <= |input|
      modifies this
      ensures Valid() && old(Rest()) == ByteBits(old(input[next..next + n])) + Rest()
      ensures next == old(next) + n && input == old(input) && bits == 0
    {
      hide ByteBits;
      ByteBitsAppend(input[next..next + n], input[next + n..]);
      assert input[next..] == input[next..next + n] + input[next + n..];
      next := next + n;
      assert Rest() == ByteBits(input[next..]);
    }

    /** Bits before the next byte boundary of the stream. */
    lemma RestMod()
      requires Valid()
      ensures |Rest()| == bits + 8 * (|input| - next) && |Rest()| % 8 == bits % 8
    {
      ByteBitsLength(input[next..]);
    }

    /** Give back whole unused bytes, `k` of them: the last ones taken from the input. */
    method ReturnBytes(k: nat)
      requires Valid() && k <= next && 8 * k <= bits
      requires BitsOf(hold, bits) == BitsOf(hold, bits - 8 * k) + ByteBits(input[next - k..next])
      modifies this
      ensures Valid() && Rest() == old(Rest()) && input == old(input)
      ensures bits == old(bits) - 8 * k && next == old(next) - k
    {
      hide BitsOf, ByteBits, Low, Shl;
      ghost var b, t := bits - 8 * k, input[next - k..next];
      BitsLow(hold, b);
      Split(hold, b);
      ByteBitsAppend(t, input[next..]);
      assert input[next - k..] == t + input[next..];
      assert Rest() == BitsOf(hold, b) + (ByteBits(t) + ByteBits(input[next..]));
      next := next - k;
      bits := bits - 8 * k;
      hold := Low(hold, bits);
    }

    /** The accumulator holds the next bits of the stream. */
    lemma PeekIsPrefix(n: nat)
      requires Valid() && n <= bits
      ensures n <= |Rest()| && Low(hold, n) == ValueOf(Rest()[..n]) && BitsOf(hold, n) == Rest()[..n]
    {
      BitsSplit(hold, n, bits - n);
      ValueBits(hold, n);
      assert Rest()[..n] == BitsOf(hold, n);
    }
  }
}

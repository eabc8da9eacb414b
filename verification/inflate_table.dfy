/** `inflate_table` of lib/libgz/inftrees.c: from code lengths to a two-level decoding
    table, verified against the canonical code. */
module InflateTable {
  import opened Bits
  import opened Canonical

  const ENOUGH_LENS: nat := 852
  const ENOUGH_DISTS: nat := 592

  datatype CodeType = CODES | LENS | DISTS

  /** A table entry: operation, bits of this part of the code, value. */
  datatype Code = Code(op: nat, bits: nat, val: nat)

  const LBASE: seq<nat> := [
    3, 4, 5, 6, 7, 8, 9, 10, 11, 13, 15, 17, 19, 23, 27, 31,
    35, 43, 51, 59, 67, 83, 99, 115, 131, 163, 195, 227, 258, 0, 0]
  const LEXT: seq<nat> := [
    16, 16, 16, 16, 16, 16, 16, 16, 17, 17, 17, 17, 18, 18, 18, 18,
    19, 19, 19, 19, 20, 20, 20, 20, 21, 21, 21, 21, 16, 73, 195]
  const DBASE: seq<nat> := [
    1, 2, 3, 4, 5, 7, 9, 13, 17, 25, 33, 49, 65, 97, 129, 193,
    257, 385, 513, 769, 1025, 1537, 2049, 3073, 4097, 6145,
    8193, 12289, 16385, 24577, 0, 0]
  const DEXT: seq<nat> := [
    16, 16, 16, 16, 17, 17, 18, 18, 19, 19, 20, 20, 21, 21, 22, 22,
    23, 23, 24, 24, 25, 25, 26, 26, 27, 27,
    28, 28, 29, 29, 64, 64]

  /** How many symbols a code of each type may have. */
  function SymbolLimit(ty: CodeType): nat {
    match ty
    case CODES => 19
    case LENS => 288
    case DISTS => 32
  }

  /** What a decoder must be told about symbol `sym` after consuming `bits` bits. */
  function SymbolEntry(ty: CodeType, sym: nat, bits: nat): Code
    requires sym < SymbolLimit(ty)
  {
    match ty
    case CODES => Code(0, bits, sym)
    case LENS =>
      if sym < 256 then Code(0, bits, sym)
      else if sym == 256 then Code(96, bits, 0)
      else Code(LEXT[sym - 257], bits, LBASE[sym - 257])
    case DISTS => Code(DEXT[sym], bits, DBASE[sym])
  }

  const INVALID_OP: nat := 64

  // ---------------------------------------------------------------- what a table means

  /** Reading `t` with the bits of `hold` finds `e`, whose code has `len` bits: directly
      in the root table, or through a link to a second-level table. */
  ghost predicate Resolves(t: seq<Code>, root: nat, hold: nat, len: nat, e: Code) {
    var h := Low(hold, root);
    && h < |t|
    && if len <= root then t[h] == e.(bits := len)
       else
         && 1 <= t[h].op < 16 && t[h].bits == root
         && var i := t[h].val + Low(Shr(hold, root), t[h].op);
            i < |t| && t[i] == e.(bits := len - root)
  }

  /** Every bit string that starts with the code word of a symbol resolves to it. */
  ghost predicate Decodes(t: seq<Code>, root: nat, ty: CodeType, lens: seq<nat>)
    requires ValidLengths(lens) && |lens| <= SymbolLimit(ty)
  {
    forall s, hold: nat ::
      0 <= s < |lens| && lens[s] != 0 && Low(hold, lens[s]) == Rev(CodeValue(lens, s), lens[s])
      ==> Resolves(t, root, hold, lens[s], SymbolEntry(ty, s, 0))
  }

  // ---------------------------------------------------------------- per-symbol invariant

  /** In the table of `2^width` entries at `at`, every index that ends in the `l` bits
      `h` holds `e`. */
  ghost predicate Slots(t: seq<Code>, at: nat, width: nat, l: nat, h: nat, e: Code) {
    && at + Pow2(width) <= |t|
    && forall j :: 0 <= j < Pow2(width) && Low(j, l) == h ==> t[at + j] == e
  }

  /** What is kept for an entered symbol with code word `huff` of length `l`. */
  ghost predicate Good(t: seq<Code>, root: nat, huff: nat, l: nat, e: Code) {
    if l <= root then
      Slots(t, 0, root, l, huff, e.(bits := l))
    else
      var b := Low(huff, root);
      && b < Pow2(root) <= |t|
      && t[b].bits == root && 1 <= t[b].op < 16 && l - root <= t[b].op
      && Pow2(root) <= t[b].val
      && Slots(t, t[b].val, t[b].op, l - root, Shr(huff, root), e.(bits := l - root))
  }

  lemma GoodResolves(t: seq<Code>, root: nat, huff: nat, l: nat, e: Code, hold: nat)
    requires Good(t, root, huff, l, e) && Low(hold, l) == huff
    ensures Resolves(t, root, hold, l, e)
  {
    hide Low, Shr, Shl;
    Split(hold, root);
    if l <= root {
      LowSplit(hold, l, root - l);
      var j := Low(hold, root);
      assert Low(j, l) == huff;
      assert t[0 + j] == e.(bits := l);
    } else {
      LowSplit(hold, root, l - root);
      var c := t[Low(hold, root)].op;
      SubIndex(Shr(hold, root), l - root, c);
      var j := Low(Shr(hold, root), c);
      assert Low(j, l - root) == Shr(huff, root);
    }
  }

  lemma SubIndex(x: nat, l: nat, c: nat)
    requires l <= c
    ensures Low(x, c) < Pow2(c) && Low(Low(x, c), l) == Low(x, l)
  {
    LowSplit(x, l, c - l);
    Split(x, c);
  }

  /** Two code words never match the same bit string. */
  lemma NoClash(ls: seq<nat>, j: nat, k: nat, x: nat)
    requires Fits(ls) && j < k < |ls|
    requires Low(x, ls[j]) == Huff(ls, j)
    ensures Low(x, ls[k]) != Huff(ls, k)
  {
    PrefixFree(ls, j, k);
    LowSplit(x, ls[j], ls[k] - ls[j]);
  }

  /** The same inside one second-level table, where the first `root` bits agree. */
  lemma NoSubClash(ls: seq<nat>, j: nat, k: nat, root: nat, i: nat)
    requires Fits(ls) && j < k < |ls| && root < ls[j]
    requires Low(Huff(ls, j), root) == Low(Huff(ls, k), root)
    requires Low(i, ls[j] - root) == Shr(Huff(ls, j), root)
    ensures Low(i, ls[k] - root) != Shr(Huff(ls, k), root)
  {
    hide Low, Shr, Shl, Huff;
    var b := Low(Huff(ls, j), root);
    Split(Huff(ls, j), root);
    Split(Huff(ls, k), root);
    SplitUnique(b, i, root);
    var x := b + Shl(i, root);
    LowSplit(x, root, ls[j] - root);
    LowSplit(x, root, ls[k] - root);
    NoClash(ls, j, k, x);
  }

  /** The first `root` bits, most significant first. */
  ghost function Block(ls: seq<nat>, k: nat, root: nat): nat
    requires Sorted(ls) && k <= |ls| && root <= MAXBITS
  {
    Shr(Start(ls, k), MAXBITS - root)
  }

  lemma BlockOrder(ls: seq<nat>, j: nat, k: nat, root: nat)
    requires Fits(ls) && j <= k < |ls| && root <= MAXBITS
    ensures Block(ls, j, root) <= Block(ls, k, root) < Pow2(root)
    ensures Low(Huff(ls, j), root) == Low(Huff(ls, k), root) <==> Block(ls, j, root) == Block(ls, k, root)
  {
    StartMono(ls, j, k);
    ShrMono(Start(ls, j), Start(ls, k), MAXBITS - root);
    StartBound(ls, k);
    ShrBound(Start(ls, k), MAXBITS - root, root);
    RevPrefix(Start(ls, j), MAXBITS, root);
    RevPrefix(Start(ls, k), MAXBITS, root);
    if Rev(Block(ls, j, root), root) == Rev(Block(ls, k, root), root) {
      RevInjective(Block(ls, j, root), Block(ls, k, root), root);
    }
  }

  /** A second-level table that is new for `s` was not used by any earlier symbol. */
  lemma NewBlock(ls: seq<nat>, k: nat, s: nat, root: nat)
    requires Fits(ls) && k < s < |ls| && root <= MAXBITS
    requires Low(Huff(ls, s - 1), root) != Low(Huff(ls, s), root)
    ensures Low(Huff(ls, k), root) != Low(Huff(ls, s), root)
  {
    var p, q, r := Block(ls, k, root), Block(ls, s - 1, root), Block(ls, s, root);
    assert q < r by { BlockOrder(ls, s - 1, s, root); }
    assert p <= q by { BlockOrder(ls, k, s - 1, root); }
    BlockOrder(ls, k, s, root);
  }

  /** ... and its symbols start exactly at the beginning of the block. */
  lemma BlockBegins(ls: seq<nat>, s: nat, root: nat)
    requires Fits(ls) && 0 < s < |ls| && root < ls[s]
    requires root < ls[s - 1] ==> Low(Huff(ls, s - 1), root) != Low(Huff(ls, s), root)
    ensures Start(ls, s) == Shl(Block(ls, s, root), MAXBITS - root)
  {
    hide Low, Shr, Huff;
    var d := MAXBITS - root;
    if ls[s - 1] <= root {
      Aligned(ls, s, root);
    } else {
      BlockOrder(ls, s - 1, s, root);
      var p, q := Block(ls, s - 1, root), Block(ls, s, root);
      Split(Start(ls, s - 1), d);
      Split(Start(ls, s), d);
      Aligned(ls, s - 1, ls[s - 1]);
      BlockEnd(Start(ls, s - 1), MAXBITS - ls[s - 1], d);
      ShlAdd(p, 1, d);
      ShlMono(p + 1, q, d);
    }
  }

  /** An aligned interval does not cross the end of a larger block. */
  lemma BlockEnd(x: nat, e: nat, d: nat)
    requires e <= d && x == Shl(Shr(x, e), e)
    ensures x + Pow2(e) <= Shl(Shr(x, d), d) + Pow2(d)
  {
    var y := Shr(x, e);
    ShrShr(x, e, d - e);
    Split(y, d - e);
    ShlShl(Shr(y, d - e), d - e, e);
    ShlShl(1, d - e, e);
    ShlAdd(y, 1, e);
    ShlAdd(Shl(Shr(y, d - e), d - e), Pow2(d - e), e);
    ShlMono(y + 1, Shl(Shr(y, d - e), d - e) + Pow2(d - e), e);
  }

  // ---------------------------------------------------------------- backwards increment

  /** Increment a code of `len` bits stored with its first bit lowest. */
  function BackInc(huff: nat, len: nat): nat {
    if len == 0 then 0
    else if huff < Pow2(len - 1) then huff + Pow2(len - 1)
    else BackInc(huff - Pow2(len - 1), len - 1)
  }

  lemma {:induction false} BackIncIsSuccessor(c: nat, len: nat)
    ensures BackInc(Rev(c, len), len) == Rev(c + 1, len)
  {
    if len != 0 {
      RevBound(c / 2, len - 1);
      ShlZero(len - 1);
      if c % 2 == 1 {
        BackIncIsSuccessor(c / 2, len - 1);
        assert (c + 1) % 2 == 0 && (c + 1) / 2 == c / 2 + 1;
      } else {
        assert (c + 1) % 2 == 1 && (c + 1) / 2 == c / 2;
      }
    }
  }

  lemma NextHuff(ls: seq<nat>, k: nat)
    requires Sorted(ls) && k < |ls|
    ensures BackInc(Huff(ls, k), ls[k]) == Huff(ls, k + 1)
  {
    var l := ls[k];
    var c := Shr(Start(ls, k), MAXBITS - l);
    HuffCode(ls, k);
    Aligned(ls, k, l);
    BackIncIsSuccessor(c, l);
    ShlAdd(c, 1, MAXBITS - l);
    RevScaled(c + 1, l, MAXBITS);
  }

  /** One look at the top bit: a one is cleared, a zero is set and ends the carry. */
  lemma BackIncTop(huff: nat, k: nat)
    ensures Shr(huff, k) % 2 == 1 ==> BackInc(Low(huff, k + 1), k + 1) == BackInc(Low(huff, k), k)
    ensures Shr(huff, k) % 2 == 0 ==> BackInc(Low(huff, k + 1), k + 1) == Low(huff, k) + Pow2(k)
  {
    TopBit(huff, k);
  }

  /** The `incr` loop of the C code: clear the run of ones at the top, set the next bit. */
  method IncrementBackwards(huff: nat, len: nat) returns (next: nat)
    requires 1 <= len && huff < Pow2(len)
    ensures next == BackInc(huff, len)
  {
    var incr := Pow2(len - 1);
    ghost var e: nat := len;   // incr == 2^(e-1), or 0 when e == 0
    LowSmall(huff, len);
    ExponentPow2(len - 1);
    while incr != 0 && Shr(huff, Exponent(incr)) % 2 == 1
      invariant incr == 0 <==> e == 0
      invariant e != 0 ==> incr == Pow2(e - 1) && Exponent(incr) == e - 1
      invariant BackInc(Low(huff, e), e) == BackInc(huff, len)
      decreases e
    {
      BackIncTop(huff, e - 1);
      HalfPow2(e - 1);
      incr := incr / 2;
      e := e - 1;
    }
    if incr != 0 {
      BackIncTop(huff, e - 1);
      next := Low(huff, Exponent(incr)) + incr;
    } else {
      next := 0;
    }
  }

  lemma HalfPow2(k: nat)
    ensures Pow2(k) / 2 == if k == 0 then 0 else Pow2(k - 1)
    ensures 0 < Pow2(k)
    ensures k != 0 ==> 0 < Pow2(k - 1) && Exponent(Pow2(k - 1)) == k - 1
  {
    ExponentPow2(k);
    if k != 0 {
      ExponentPow2(k - 1);
      assert Pow2(k) == 2 * Pow2(k - 1);
    }
  }

  /** The position of the single set bit of a power of two. */
  function Exponent(p: nat): nat
    requires 0 < p
  {
    if p == 1 then 0 else 1 + Exponent(p / 2)
  }

  lemma {:induction false} ExponentPow2(k: nat)
    ensures 0 < Pow2(k) && Exponent(Pow2(k)) == k
  {
    if k != 0 {
      ExponentPow2(k - 1);
      assert Pow2(k) == 2 * Pow2(k - 1);
    }
  }

  lemma TopBit(x: nat, k: nat)
    ensures Low(x, k + 1) == Low(x, k) + Shl(Shr(x, k) % 2, k)
    ensures Low(x, k) < Pow2(k) && Shl(0, k) == 0
  {
    LowSplit(x, k, 1);
    Split(x, k);
    ShlZero(k);
    assert Low(Shr(x, k), 1) == Shr(x, k) % 2 + 2 * Low(Shr(x, k) / 2, 0);
  }

  // ---------------------------------------------------------------- second-level sizes

  /** How many of the symbols from `s` on have length `l`. */
  ghost function CountFrom(ls: seq<nat>, l: nat, s: nat): nat
    requires s <= |ls|
    decreases |ls| - s
  {
    if s == |ls| then 0 else (if ls[s] == l then 1 else 0) + CountFrom(ls, l, s + 1)
  }

  /** In sorted order the symbols of one length are consecutive. */
  lemma {:induction false} CountRun(ls: seq<nat>, l: nat, s: nat, e: nat)
    requires Sorted(ls) && s <= e <= |ls|
    requires forall i :: s <= i < e ==> ls[i] < l
    requires forall i :: e <= i < |ls| ==> l <= ls[i]
    ensures e + CountFrom(ls, l, s) <= |ls|
    ensures forall i :: e <= i < e + CountFrom(ls, l, s) ==> ls[i] == l
    ensures forall i :: e + CountFrom(ls, l, s) <= i < |ls| ==> l < ls[i]
    decreases |ls| - s
  {
    if s < e {
      CountRun(ls, l, s + 1, e);
    } else if s < |ls| {
      CountRun(ls, l, s + 1, e + 1);
      assert 0 < CountFrom(ls, l, s + 1) ==> ls[s] <= ls[e + 1] == l;
    }
  }

  lemma ShlDouble(x: nat, k: nat)
    ensures Shl(2 * x, k) == Shl(x, k + 1)
  {
    ShlShl(x, 1, k);
    assert Shl(x, 1) == 2 * Shl(x, 0);
  }

  /** Symbols at or past the end of the block of `s` have other first bits. */
  lemma PastBlock(ls: seq<nat>, s: nat, k: nat, root: nat)
    requires Fits(ls) && s <= k < |ls| && root <= MAXBITS
    requires Start(ls, s) == Shl(Block(ls, s, root), MAXBITS - root)
    requires Start(ls, s) + Pow2(MAXBITS - root) <= Start(ls, k)
    ensures Low(Huff(ls, k), root) != Low(Huff(ls, s), root)
  {
    LaterBlock(Start(ls, s), Start(ls, k), MAXBITS - root);
    BlockOrder(ls, s, k, root);
  }

  /** The symbols `s..e` are those of length below `l`, and up to `end` they leave room for
      `left` symbols of length `l`. */
  ghost predicate Room(ls: seq<nat>, s: nat, e: nat, l: nat, left: nat, end: nat) {
    && Sorted(ls) && s <= e <= |ls| && l <= MAXBITS
    && Shl(left, MAXBITS - l) + Start(ls, e) == end
    && (forall i :: s <= i < e ==> ls[i] < l)
    && (forall i :: e <= i < |ls| ==> l <= ls[i])
  }

  /** From `s` on, no symbol longer than `l` starts before `end`. */
  ghost predicate Exhausted(ls: seq<nat>, s: nat, e: nat, l: nat, end: nat) {
    && Sorted(ls) && e <= |ls|
    && end <= Start(ls, e)
    && (forall i :: s <= i < |ls| && l < ls[i] ==> e <= i)
  }

  /** One look-ahead step: the symbols of length `l` use up `c` of the `left` free places. */
  lemma LookAhead(ls: seq<nat>, s: nat, e: nat, l: nat, left: nat, end: nat)
    requires Room(ls, s, e, l, left, end) && l < MAXBITS
    ensures var c := CountFrom(ls, l, s);
      && e + c <= |ls|
      && if left <= c then Exhausted(ls, s, e + c, l, end)
         else Room(ls, s, e + c, l + 1, (left - c) * 2, end)
  {
    var c := CountFrom(ls, l, s);
    CountRun(ls, l, s, e);
    StartRun(ls, e, c, l);
    if left <= c {
      ShlMono(left, c, MAXBITS - l);
    } else {
      ShlAdd(left - c, c, MAXBITS - l);
      ShlDouble(left - c, MAXBITS - l - 1);
    }
  }

  lemma RoomAtFirst(ls: seq<nat>, s: nat, root: nat)
    requires Sorted(ls) && s < |ls| && root < ls[s]
    ensures Room(ls, s, s, ls[s], Pow2(ls[s] - root), Start(ls, s) + Pow2(MAXBITS - root))
    ensures 0 < Pow2(ls[s] - root)
  {
    ShlShl(1, ls[s] - root, MAXBITS - ls[s]);
    ShlMono(0, 1, ls[s] - root);
  }

  lemma ExhaustedBlock(ls: seq<nat>, s: nat, e: nat, root: nat, l: nat, k: nat)
    requires Fits(ls) && s <= k < |ls| && root <= MAXBITS
    requires Start(ls, s) == Shl(Block(ls, s, root), MAXBITS - root)
    requires Exhausted(ls, s, e, l, Start(ls, s) + Pow2(MAXBITS - root))
    requires Low(Huff(ls, k), root) == Low(Huff(ls, s), root)
    ensures ls[k] <= l
  {
    if l < ls[k] {
      StartMono(ls, e, k);
      PastBlock(ls, s, k, root);
    }
  }

  /** The look-ahead loop: wide enough for every symbol that shares the first `root` bits
      with symbol `s`, the first of them. */
  method SubtableBits(count: array<nat>, ghost ls: seq<nat>, ghost s: nat, len: nat, root: nat, max: nat)
    returns (curr: nat)
    requires Fits(ls) && s < |ls| && len == ls[s] && root < len && max == ls[|ls| - 1]
    requires count.Length == MAXBITS + 1
    requires forall l :: 1 <= l <= MAXBITS ==> count[l] == CountFrom(ls, l, s)
    requires Start(ls, s) == Shl(Block(ls, s, root), MAXBITS - root)
    ensures 1 <= curr <= max - root
    ensures forall k :: s <= k < |ls| && Low(Huff(ls, k), root) == Low(Huff(ls, s), root) ==> ls[k] <= root + curr
  {
    hide Start, Huff, Block, Room, Exhausted, CountFrom, Low, Shl;
    curr := len - root;
    var left: int := Pow2(curr);
    ghost var e := s;
    ghost var end := Start(ls, s) + Pow2(MAXBITS - root);
    ghost var closed := false;
    RoomAtFirst(ls, s, root);
    while curr + root < max
      invariant len - root <= curr <= max - root
      invariant !closed && 0 < left
      invariant Room(ls, s, e, curr + root, left, end)
    {
      LookAhead(ls, s, e, curr + root, left, end);
      left := left - count[curr + root];
      e := e + count[curr + root];
      if left <= 0 {
        closed := true;
        break;
      }
      curr := curr + 1;
      left := left * 2;
    }
    if closed {
      forall k | s <= k < |ls| && Low(Huff(ls, k), root) == Low(Huff(ls, s), root)
        ensures ls[k] <= root + curr
      {
        ExhaustedBlock(ls, s, e, root, root + curr, k);
      }
    }
  }

  // ---------------------------------------------------------------- replicated entries

  /** `b` is `a` with `here` at every index of the table at `at` that ends in `h`. */
  ghost predicate Filled(a: seq<Code>, b: seq<Code>, at: nat, width: nat, l: nat, h: nat, here: Code) {
    && |a| == |b| && at + Pow2(width) <= |a|
    && (forall i :: 0 <= i < |a| && !(at <= i < at + Pow2(width)) ==> b[i] == a[i])
    && (forall j :: 0 <= j < Pow2(width) ==> b[at + j] == if Low(j, l) == h then here else a[at + j])
  }

  lemma BlockIndex(j: nat, m: nat, l: nat)
    requires Shl(m, l) <= j < Shl(m, l) + Pow2(l)
    ensures Low(j, l) == j - Shl(m, l)
  {
    SplitUnique(j - Shl(m, l), m, l);
  }

  method Replicate(table: array<Code>, at: nat, width: nat, l: nat, h: nat, here: Code)
    requires l <= width && h < Pow2(l) && at + Pow2(width) <= table.Length
    modifies table
    ensures Filled(old(table[..]), table[..], at, width, l, h, here)
  {
    var incr := Pow2(l);
    var fill := Pow2(width);
    ghost var m := Pow2(width - l);
    ShlShl(1, width - l, l);
    Pow2Mono(l, width);
    ShlMono(0, 1, width - l);
    while fill != 0
      invariant fill <= Pow2(width) && fill == Shl(m, l)
      invariant forall i :: 0 <= i < table.Length && !(at + fill <= i < at + Pow2(width)) ==> table[i] == old(table[i])
      invariant forall j :: fill <= j < Pow2(width) ==>
        table[at + j] == if Low(j, l) == h then here else old(table[at + j])
      decreases fill
    {
      ghost var top := fill;
      ShlMono(0, m, l);
      ShlZero(l);
      ShlAdd(m - 1, 1, l);
      fill := fill - incr;
      table[at + h + fill] := here;
      m := m - 1;
      forall j | fill <= j < top
        ensures Low(j, l) == j - fill
      {
        BlockIndex(j, m, l);
      }
    }
  }

  // ---------------------------------------------------------------- the main loop

  /** The first `n` sorted symbols are entered. */
  ghost predicate Entered(t: seq<Code>, ls: seq<nat>, syms: seq<nat>, ty: CodeType, root: nat, n: nat)
    requires Sorted(ls) && n <= |ls| == |syms|
    requires forall k :: 0 <= k < |syms| ==> syms[k] < SymbolLimit(ty)
  {
    forall k :: 0 <= k < n ==> Good(t, root, Huff(ls, k), ls[k], SymbolEntry(ty, syms[k], 0))
  }

  /** Where symbol `sym` goes: into the root table, or into the open second-level table of
      `2^curr` entries at `next`, which is linked from root entry `low`, has room for all
      symbols with these first bits, and lies behind all other second-level tables. */
  ghost predicate Layout(t: seq<Code>, ls: seq<nat>, root: nat, sym: nat, next: nat, curr: nat, low: int, used: nat)
    requires Sorted(ls) && sym < |ls|
  {
    && used <= |t|
    && if ls[sym] <= root then
         next == 0 && curr == root && low == -1 && used == Pow2(root)
       else
         && Pow2(root) <= next && next + Pow2(curr) == used && 1 <= curr < 16
         && low == Low(Huff(ls, sym), root) && 0 <= low < Pow2(root)
         && t[low] == Code(curr, root, next)
         && (forall k :: sym <= k < |ls| && Low(Huff(ls, k), root) == low ==> ls[k] <= root + curr)
         && OtherTablesBelow(t, ls, root, sym, low, next)
  }

  ghost predicate OtherTablesBelow(t: seq<Code>, ls: seq<nat>, root: nat, n: nat, low: int, next: nat)
    requires Sorted(ls) && n <= |ls|
  {
    forall k :: 0 <= k < n && root < ls[k] && Low(Huff(ls, k), root) != low ==>
      var b := Low(Huff(ls, k), root);
      b < |t| && t[b].val + Pow2(t[b].op) <= next
  }

  /** Entering symbol `s` into the root table keeps an earlier symbol `k`. */
  lemma KeepInRoot(t: seq<Code>, t': seq<Code>, ls: seq<nat>, root: nat, k: nat, s: nat, e: Code, here: Code)
    requires Fits(ls) && k < s < |ls| && ls[s] <= root
    requires Good(t, root, Huff(ls, k), ls[k], e)
    requires Filled(t, t', 0, root, ls[s], Huff(ls, s), here)
    ensures Good(t', root, Huff(ls, k), ls[k], e)
  {
    hide Huff, Low, Shl;
    forall j | 0 <= j < Pow2(root) && Low(j, ls[k]) == Huff(ls, k)
      ensures t'[0 + j] == e.(bits := ls[k])
    {
      NoClash(ls, k, s, j);
      assert t'[0 + j] == t[0 + j];
    }
  }

  /** Entering symbol `s` into its second-level table keeps an earlier symbol `k`. */
  lemma KeepInSub(t: seq<Code>, t': seq<Code>, ls: seq<nat>, root: nat, k: nat, s: nat,
                  next: nat, curr: nat, e: Code, here: Code)
    requires Fits(ls) && k < s < |ls| && root < ls[s]
    requires Good(t, root, Huff(ls, k), ls[k], e)
    requires Pow2(root) <= next && Low(Huff(ls, s), root) < Pow2(root) <= |t|
    requires t[Low(Huff(ls, s), root)] == Code(curr, root, next)
    requires OtherTablesBelow(t, ls, root, s, Low(Huff(ls, s), root), next)
    requires Filled(t, t', next, curr, ls[s] - root, Shr(Huff(ls, s), root), here)
    ensures Good(t', root, Huff(ls, k), ls[k], e)
  {
    hide Huff, Low, Shl, Shr;
    if root < ls[k] {
      var b := Low(Huff(ls, k), root);
      var at, w, l, h := t[b].val, t[b].op, ls[k] - root, Shr(Huff(ls, k), root);
      forall j | 0 <= j < Pow2(w) && Low(j, l) == h
        ensures t'[at + j] == e.(bits := l)
      {
        assert t[at + j] == e.(bits := l);
        if b == Low(Huff(ls, s), root) {
          NoSubClash(ls, k, s, root, j);
        }
      }
    }
  }

  /** A link written for a new second-level table keeps every earlier symbol. */
  lemma KeepUnderLink(t: seq<Code>, t': seq<Code>, ls: seq<nat>, root: nat, k: nat, s: nat, e: Code, link: Code)
    requires Fits(ls) && k < s < |ls| && root < ls[s] && root <= MAXBITS
    requires root < ls[s - 1] ==> Low(Huff(ls, s - 1), root) != Low(Huff(ls, s), root)
    requires Good(t, root, Huff(ls, k), ls[k], e)
    requires Low(Huff(ls, s), root) < Pow2(root) <= |t| && t' == t[Low(Huff(ls, s), root) := link]
    ensures Good(t', root, Huff(ls, k), ls[k], e)
  {
    hide Huff, Low, Shl, Shr;
    var low := Low(Huff(ls, s), root);
    if ls[k] <= root {
      forall j | 0 <= j < Pow2(root) && Low(j, ls[k]) == Huff(ls, k)
        ensures t'[0 + j] == e.(bits := ls[k])
      {
        assert t[0 + j] == e.(bits := ls[k]);
        LowSplit(Huff(ls, s), ls[k], root - ls[k]);
        PrefixFree(ls, k, s);
      }
    } else {
      NewBlock(ls, k, s, root);
    }
  }

  /** One round of the main loop: symbol `s` joins the entered symbols. */
  lemma EnterSymbol(t: seq<Code>, t': seq<Code>, ls: seq<nat>, syms: seq<nat>, ty: CodeType, root: nat,
                    s: nat, next: nat, curr: nat, low: int, used: nat, drop: nat)
    requires Fits(ls) && s < |ls| == |syms|
    requires forall k :: 0 <= k < |syms| ==> syms[k] < SymbolLimit(ty)
    requires Entered(t, ls, syms, ty, root, s)
    requires Layout(t, ls, root, s, next, curr, low, used)
    requires drop == if ls[s] <= root then 0 else root
    requires Filled(t, t', next, curr, ls[s] - drop, Shr(Huff(ls, s), drop), SymbolEntry(ty, syms[s], ls[s] - drop))
    ensures Entered(t', ls, syms, ty, root, s + 1)
    ensures Layout(t', ls, root, s, next, curr, low, used)
  {
    hide Huff, Low, Shl, SymbolEntry;
    var here := SymbolEntry(ty, syms[s], ls[s] - drop);
    EntryBits(ty, syms[s], ls[s] - drop);
    forall k | 0 <= k < s
      ensures Good(t', root, Huff(ls, k), ls[k], SymbolEntry(ty, syms[k], 0))
    {
      if ls[s] <= root {
        assert Shr(Huff(ls, s), 0) == Huff(ls, s);
        KeepInRoot(t, t', ls, root, k, s, SymbolEntry(ty, syms[k], 0), here);
      } else {
        KeepInSub(t, t', ls, root, k, s, next, curr, SymbolEntry(ty, syms[k], 0), here);
      }
    }
    assert Good(t', root, Huff(ls, s), ls[s], SymbolEntry(ty, syms[s], 0)) by {
      hide Entered;
      assert Shr(Huff(ls, s), 0) == Huff(ls, s);
    }
    if root < ls[s] {
      forall k | 0 <= k < s && root < ls[k] && Low(Huff(ls, k), root) != low
        ensures var b := Low(Huff(ls, k), root); b < |t'| && t'[b].val + Pow2(t'[b].op) <= next
      {
        assert Good(t, root, Huff(ls, k), ls[k], SymbolEntry(ty, syms[k], 0));
      }
    }
  }

  lemma EntryBits(ty: CodeType, sym: nat, bits: nat)
    requires sym < SymbolLimit(ty)
    ensures SymbolEntry(ty, sym, bits) == SymbolEntry(ty, sym, 0).(bits := bits)
  {
  }

  /** All second-level tables lie below `used`. */
  lemma TablesBelow(t: seq<Code>, ls: seq<nat>, syms: seq<nat>, ty: CodeType, root: nat,
                    s: nat, next: nat, curr: nat, low: int, used: nat)
    requires Fits(ls) && 0 < s <= |ls| == |syms|
    requires forall k :: 0 <= k < |syms| ==> syms[k] < SymbolLimit(ty)
    requires Entered(t, ls, syms, ty, root, s)
    requires Layout(t, ls, root, s - 1, next, curr, low, used)
    ensures Pow2(root) <= used
    ensures forall k :: 0 <= k < s && root < ls[k] ==>
              var b := Low(Huff(ls, k), root); b < |t| && t[b].val + Pow2(t[b].op) <= used
  {
    hide Huff, Low, Shl, SymbolEntry;
    ShlMono(0, 1, curr);
    forall k | 0 <= k < s && root < ls[k]
      ensures var b := Low(Huff(ls, k), root); b < |t| && t[b].val + Pow2(t[b].op) <= used
    {
      assert Good(t, root, Huff(ls, k), ls[k], SymbolEntry(ty, syms[k], 0));
      assert root < ls[s - 1];
    }
  }

  /** Opening a second-level table for symbol `s` keeps the entered symbols. */
  lemma OpenTable(t: seq<Code>, t': seq<Code>, ls: seq<nat>, syms: seq<nat>, ty: CodeType, root: nat,
                  s: nat, next: nat, curr: nat, low: int, used: nat, curr': nat)
    requires Fits(ls) && 0 < s < |ls| == |syms|
    requires forall k :: 0 <= k < |syms| ==> syms[k] < SymbolLimit(ty)
    requires Entered(t, ls, syms, ty, root, s)
    requires Layout(t, ls, root, s - 1, next, curr, low, used)
    requires root < ls[s] && low != Low(Huff(ls, s), root)
    requires Low(Huff(ls, s), root) < Pow2(root) <= |t|
    requires 1 <= curr' < 16 && used + Pow2(curr') <= |t|
    requires forall k :: s <= k < |ls| && Low(Huff(ls, k), root) == Low(Huff(ls, s), root) ==> ls[k] <= root + curr'
    requires t' == t[Low(Huff(ls, s), root) := Code(curr', root, used)]
    ensures Entered(t', ls, syms, ty, root, s)
    ensures Layout(t', ls, root, s, used, curr', Low(Huff(ls, s), root), used + Pow2(curr'))
  {
    hide Huff, Low, Shl, SymbolEntry, Layout, Entered;
    OpenEntered(t, t', ls, syms, ty, root, s, next, curr, low, used, curr');
    TablesBelow(t, ls, syms, ty, root, s, next, curr, low, used);
    OpenLayout(t, t', ls, root, s, next, curr, low, used, curr');
  }

  lemma OpenEntered(t: seq<Code>, t': seq<Code>, ls: seq<nat>, syms: seq<nat>, ty: CodeType, root: nat,
                    s: nat, next: nat, curr: nat, low: int, used: nat, curr': nat)
    requires Fits(ls) && 0 < s < |ls| == |syms|
    requires forall k :: 0 <= k < |syms| ==> syms[k] < SymbolLimit(ty)
    requires Entered(t, ls, syms, ty, root, s)
    requires Layout(t, ls, root, s - 1, next, curr, low, used)
    requires root < ls[s] && low != Low(Huff(ls, s), root)
    requires Low(Huff(ls, s), root) < Pow2(root) <= |t|
    requires t' == t[Low(Huff(ls, s), root) := Code(curr', root, used)]
    ensures Entered(t', ls, syms, ty, root, s)
  {
    hide Huff, Low, Shl, SymbolEntry;
    var link := Code(curr', root, used);
    forall k | 0 <= k < s
      ensures Good(t', root, Huff(ls, k), ls[k], SymbolEntry(ty, syms[k], 0))
    {
      KeepUnderLink(t, t', ls, root, k, s, SymbolEntry(ty, syms[k], 0), link);
    }
  }

  lemma OpenLayout(t: seq<Code>, t': seq<Code>, ls: seq<nat>, root: nat, s: nat, next: nat, curr: nat, low: int,
                   used: nat, curr': nat)
    requires Fits(ls) && 0 < s < |ls| && Layout(t, ls, root, s - 1, next, curr, low, used)
    requires root < ls[s] && Low(Huff(ls, s), root) < Pow2(root) <= |t| && Pow2(root) <= used
    requires 1 <= curr' < 16 && used + Pow2(curr') <= |t|
    requires forall k :: s <= k < |ls| && Low(Huff(ls, k), root) == Low(Huff(ls, s), root) ==> ls[k] <= root + curr'
    requires t' == t[Low(Huff(ls, s), root) := Code(curr', root, used)]
    requires forall k :: 0 <= k < s && root < ls[k] ==>
      var b := Low(Huff(ls, k), root); b < |t| && t[b].val + Pow2(t[b].op) <= used
    ensures Layout(t', ls, root, s, used, curr', Low(Huff(ls, s), root), used + Pow2(curr'))
  {
    hide Huff, Low, Shl;
    forall k | 0 <= k < s && root < ls[k] && Low(Huff(ls, k), root) != Low(Huff(ls, s), root)
      ensures var b := Low(Huff(ls, k), root); b < |t'| && t'[b].val + Pow2(t'[b].op) <= used
    {
      assert Low(Huff(ls, k), root) < |t|;
    }
  }

  /** Cutting the table behind its last second-level table keeps the entered symbols. */
  lemma Truncate(t: seq<Code>, ls: seq<nat>, syms: seq<nat>, ty: CodeType, root: nat,
                 next: nat, curr: nat, low: int, used: nat)
    requires Fits(ls) && 0 < |ls| == |syms|
    requires forall k :: 0 <= k < |syms| ==> syms[k] < SymbolLimit(ty)
    requires Entered(t, ls, syms, ty, root, |ls|)
    requires Layout(t, ls, root, |ls| - 1, next, curr, low, used)
    ensures Entered(t[..used], ls, syms, ty, root, |ls|)
  {
    hide Huff, Low, Shl, SymbolEntry;
    TablesBelow(t, ls, syms, ty, root, |ls|, next, curr, low, used);
    forall k | 0 <= k < |ls|
      ensures Good(t[..used], root, Huff(ls, k), ls[k], SymbolEntry(ty, syms[k], 0))
    {
      assert Good(t, root, Huff(ls, k), ls[k], SymbolEntry(ty, syms[k], 0));
    }
  }

  lemma FilledSlice(a: seq<Code>, b: seq<Code>, base: nat, at: nat, width: nat, l: nat, h: nat, here: Code)
    requires Filled(a, b, base + at, width, l, h, here)
    ensures Filled(a[base..], b[base..], at, width, l, h, here)
    ensures a[..base] == b[..base]
  {
    forall j | 0 <= j < Pow2(width)
      ensures b[base..][at + j] == if Low(j, l) == h then here else a[base..][at + j]
    {
      assert b[base + at + j] == if Low(j, l) == h then here else a[base + at + j];
    }
  }

  lemma CountNext(ls: seq<nat>, s: nat)
    requires Sorted(ls) && s < |ls|
    ensures CountFrom(ls, ls[s], s + 1) == 0 <==> s + 1 == |ls| || ls[s] < ls[s + 1]
  {
    CountRun(ls, ls[s], s + 1, s + 1);
  }

  /** Allocated entries that a table of this type may not reach. */
  function Limit(ty: CodeType): nat {
    if ty == DISTS then ENOUGH_DISTS else ENOUGH_LENS
  }

  predicate OutOfSpace(ty: CodeType, used: nat) {
    || (ty == LENS && used >= ENOUGH_LENS)
    || (ty == DISTS && used >= ENOUGH_DISTS)
  }

  /** Creating an entry, with the comparison against `end` of the C code. */
  method MakeEntry(ty: CodeType, sym: nat, bits: nat) returns (here: Code)
    requires sym < SymbolLimit(ty)
    ensures here == SymbolEntry(ty, sym, bits)
  {
    var end: int := match ty case CODES => 19 case LENS => 256 case DISTS => -1;
    if sym < end {
      here := Code(0, bits, sym);
    } else if sym > end {
      if ty == LENS {
        here := Code(LEXT[sym - 257], bits, LBASE[sym - 257]);
      } else {
        here := Code(DEXT[sym], bits, DBASE[sym]);
      }
    } else {
      here := Code(32 + 64, bits, 0);
    }
  }

  /** State of the main loop: the open table and the allocated entries. */
  datatype Cursor = Cursor(next: nat, curr: nat, drop: nat, low: int, used: nat)

  ghost predicate Placed(t: seq<Code>, ls: seq<nat>, root: nat, s: nat, c: Cursor) {
    && Sorted(ls) && s < |ls|
    && Layout(t, ls, root, s, c.next, c.curr, c.low, c.used)
    && c.drop == if ls[s] <= root then 0 else root
  }

  /** Make the entry of symbol `s` and replicate it in the open table. */
  method EnterOne(ty: CodeType, ghost ls: seq<nat>, ghost syms: seq<nat>, ghost s: nat, sym: nat,
                  table: array<Code>, base: nat, root: nat, huff: nat, len: nat, c: Cursor)
    requires Fits(ls) && s < |ls| == |syms| && syms[s] == sym && len == ls[s] && huff == Huff(ls, s)
    requires forall k :: 0 <= k < |syms| ==> syms[k] < SymbolLimit(ty)
    requires base <= table.Length
    requires Entered(table[base..], ls, syms, ty, root, s) && Placed(table[base..], ls, root, s, c)
    modifies table
    ensures table[..base] == old(table[..base])
    ensures Entered(table[base..], ls, syms, ty, root, s + 1) && Placed(table[base..], ls, root, s, c)
  {
    hide Start, Huff, Low, Shl, Shr, SymbolEntry, Entered, Layout;
    var here := MakeEntry(ty, sym, len - c.drop);
    ghost var t := table[..];
    LayoutBounds(table[base..], ls, root, s, c.next, c.curr, c.low, c.used);
    Replicate(table, base + c.next, c.curr, len - c.drop, Shr(huff, c.drop), here);
    FilledSlice(t, table[..], base, c.next, c.curr, len - c.drop, Shr(huff, c.drop), here);
    EnterSymbol(t[base..], table[base..], ls, syms, ty, root, s, c.next, c.curr, c.low, c.used, c.drop);
  }

  /** Open the second-level table of symbol `s` behind all others and link it. */
  method OpenOne(ty: CodeType, ghost ls: seq<nat>, ghost syms: seq<nat>, ghost s: nat, count: array<nat>,
                 table: array<Code>, base: nat, root: nat, huff: nat, len: nat, max: nat, c: Cursor)
    returns (ok: bool, c': Cursor)
    requires Fits(ls) && 0 < s < |ls| == |syms| && len == ls[s] && huff == Huff(ls, s) && max == ls[|ls| - 1]
    requires forall k :: 0 <= k < |syms| ==> syms[k] < SymbolLimit(ty)
    requires ty != CODES && base + Limit(ty) <= table.Length
    requires count.Length == MAXBITS + 1 && forall l :: 1 <= l <= MAXBITS ==> count[l] == CountFrom(ls, l, s)
    requires Entered(table[base..], ls, syms, ty, root, s) && Placed(table[base..], ls, root, s - 1, c)
    requires root < len && Low(huff, root) != c.low
    modifies table
    ensures table[..base] == old(table[..base])
    ensures ok ==> Entered(table[base..], ls, syms, ty, root, s) && Placed(table[base..], ls, root, s, c')
    ensures ok ==> !OutOfSpace(ty, c'.used)
  {
    hide Start, Huff, Low, Shl, Shr, SymbolEntry, Entered, Layout, CountFrom;
    LayoutEnds(table[base..], ls, root, s - 1, c.next, c.curr, c.low, c.used);
    var drop := if c.drop == 0 then root else c.drop;
    var next := c.next + Pow2(c.curr);
    BlockBegins(ls, s, root);
    var curr := SubtableBits(count, ls, s, len, root, max);
    var used := c.used + Pow2(curr);
    if OutOfSpace(ty, used) {
      return false, c;
    }
    Split(huff, root);
    ghost var u := table[base..];
    var low := Low(huff, root);
    table[base + low] := Code(curr, root, next);
    assert table[base..] == u[low := Code(curr, root, next)];
    OpenTable(u, table[base..], ls, syms, ty, root, s, c.next, c.curr, c.low, c.used, curr);
    return true, Cursor(next, curr, drop, low, used);
  }

  /** The main loop: enter all symbols in sorted order, opening second-level tables on the
      way; not `ok` when the space runs out. */
  method EnterSymbols(ty: CodeType, lens: seq<nat>, work: array<nat>, count: array<nat>,
                      table: array<Code>, base: nat, root: nat, min: nat, max: nat)
    returns (ok: bool, huff: nat, c: Cursor)
    requires ValidLengths(lens) && |lens| <= SymbolLimit(ty)
    requires var ls := SortedLens(lens);
      && Fits(ls) && 0 < |ls| <= work.Length && work[..|ls|] == Order(lens, MAXBITS)
      && min == ls[0] && max == ls[|ls| - 1] && 1 <= min <= root <= max
      && count.Length == MAXBITS + 1 && work != count
      && forall l :: 1 <= l <= MAXBITS ==> count[l] == CountFrom(ls, l, 0)
    requires if ty == CODES then root == max && base + Pow2(root) <= table.Length
             else base + Limit(ty) <= table.Length
    modifies table, count
    ensures table[..base] == old(table[..base])
    ensures var ls, syms := SortedLens(lens), Order(lens, MAXBITS);
      && Sorted(ls) && (forall k :: 0 <= k < |syms| ==> syms[k] < SymbolLimit(ty))
      && (ok ==> && huff == Huff(ls, |ls|)
                 && Entered(table[base..], ls, syms, ty, root, |ls|)
                 && Placed(table[base..], ls, root, |ls| - 1, c))
    ensures !ok ==> ty != CODES && (root < max || OutOfSpace(ty, Pow2(root)))
    ensures ok ==> !OutOfSpace(ty, c.used)
  {
    hide Start, Huff, Low, Shl, Shr, Rev, SymbolEntry, Order, Filter, Entered, Layout, CountFrom;
    ghost var ls, syms := SortedLens(lens), Order(lens, MAXBITS);
    SortedLensFacts(lens);
    huff := 0;
    var sym: nat, len: nat := 0, min;
    c := Cursor(0, root, 0, -1, Pow2(root));
    if OutOfSpace(ty, c.used) {
      return false, huff, c;
    }
    Initially(table[base..], ls, syms, ty, root, c.used);
    while true
      invariant sym < |ls| && len == ls[sym] && huff == Huff(ls, sym)
      invariant table[..base] == old(table[..base])
      invariant Entered(table[base..], ls, syms, ty, root, sym) && Placed(table[base..], ls, root, sym, c)
      invariant forall l :: 1 <= l <= MAXBITS ==> count[l] == CountFrom(ls, l, sym)
      invariant !OutOfSpace(ty, c.used)
      decreases |ls| - sym
    {
      assert work[sym] == work[..|ls|][sym] == syms[sym];
      EnterOne(ty, ls, syms, sym, work[sym], table, base, root, huff, len, c);
      HuffCode(ls, sym);
      NextHuff(ls, sym);
      huff := IncrementBackwards(huff, len);
      CountStep(ls, sym);
      sym := sym + 1;
      count[len] := count[len] - 1;
      CountNext(ls, sym - 1);
      if count[len] == 0 {
        if len == max {
          break;
        }
        assert work[sym] == work[..|ls|][sym] == syms[sym];
        len := lens[work[sym]];
      }
      if len > root && Low(huff, root) != c.low {
        ok, c := OpenOne(ty, ls, syms, sym, count, table, base, root, huff, len, max, c);
        if !ok {
          return false, huff, c;
        }
      } else {
        LayoutStays(table[base..], ls, root, sym, c.next, c.curr, c.low, c.used);
      }
    }
    ok := true;
  }

  lemma Initially(t: seq<Code>, ls: seq<nat>, syms: seq<nat>, ty: CodeType, root: nat, used: nat)
    requires Sorted(ls) && 0 < |ls| == |syms| && ls[0] <= root && used == Pow2(root) <= |t|
    requires forall k :: 0 <= k < |syms| ==> syms[k] < SymbolLimit(ty)
    ensures Entered(t, ls, syms, ty, root, 0)
    ensures Layout(t, ls, root, 0, 0, root, -1, used)
    ensures Huff(ls, 0) == 0
  {
    RevZero(MAXBITS);
  }

  lemma CountStep(ls: seq<nat>, s: nat)
    requires s < |ls|
    ensures forall l :: CountFrom(ls, l, s) == CountFrom(ls, l, s + 1) + if ls[s] == l then 1 else 0
  {
  }

  lemma LayoutBounds(t: seq<Code>, ls: seq<nat>, root: nat, s: nat, next: nat, curr: nat, low: int, used: nat)
    requires Sorted(ls) && s < |ls| && Layout(t, ls, root, s, next, curr, low, used)
    ensures var drop := if ls[s] <= root then 0 else root;
      && ls[s] - drop <= curr && next + Pow2(curr) <= |t|
      && Huff(ls, s) < Pow2(ls[s]) && Shr(Huff(ls, s), drop) < Pow2(ls[s] - drop)
  {
    HuffCode(ls, s);
    ShrNone(Huff(ls, s));
    hide Huff, Shl, Shr, Low, Start;
    if root < ls[s] {
      ShrBound(Huff(ls, s), root, ls[s] - root);
    }
  }

  lemma ShrNone(x: nat)
    ensures Shr(x, 0) == x
  {
  }

  lemma LayoutEnds(t: seq<Code>, ls: seq<nat>, root: nat, s: nat, next: nat, curr: nat, low: int, used: nat)
    requires Sorted(ls) && s < |ls| && Layout(t, ls, root, s, next, curr, low, used)
    ensures next + Pow2(curr) == used <= |t|
    ensures Pow2(root) <= used
    ensures root < ls[s] ==> low == Low(Huff(ls, s), root)
  {
  }

  /** While the first bits stay the same, so does the open table. */
  lemma LayoutStays(t: seq<Code>, ls: seq<nat>, root: nat, s: nat, next: nat, curr: nat, low: int, used: nat)
    requires Sorted(ls) && 0 < s < |ls| && Layout(t, ls, root, s - 1, next, curr, low, used)
    requires ls[s] <= root || Low(Huff(ls, s), root) == low
    ensures Layout(t, ls, root, s, next, curr, low, used)
    ensures root < ls[s] ==> root < ls[s - 1]
  {
  }

  // ---------------------------------------------------------------- counting and sorting

  /** `count[l]` becomes the number of symbols of length `l`. */
  method CountLengths(lens: seq<nat>) returns (count: array<nat>)
    requires ValidLengths(lens)
    ensures fresh(count) && count.Length == MAXBITS + 1
    ensures forall l :: 0 <= l <= MAXBITS ==> count[l] == |Filter(lens, l)|
  {
    count := new nat[MAXBITS + 1](_ => 0);
    for sym := 0 to |lens|
      invariant forall l :: 0 <= l <= MAXBITS ==> count[l] == |Filter(lens[..sym], l)|
    {
      assert lens[..sym + 1][..sym] == lens[..sym];
      count[lens[sym]] := count[lens[sym]] + 1;
    }
    assert lens[..|lens|] == lens;
  }

  /** The longest and the shortest length in use; `max == 0` when there is none. */
  method LengthBounds(count: array<nat>) returns (min: nat, max: nat)
    requires count.Length == MAXBITS + 1
    ensures max <= MAXBITS
    ensures forall l :: max < l <= MAXBITS ==> count[l] == 0
    ensures max != 0 ==> count[max] != 0 && 1 <= min <= max && count[min] != 0
    ensures max != 0 ==> forall l :: 1 <= l < min ==> count[l] == 0
  {
    max := MAXBITS;
    while max >= 1 && count[max] == 0
      invariant max <= MAXBITS
      invariant forall l :: max < l <= MAXBITS ==> count[l] == 0
    {
      max := max - 1;
    }
    min := 1;
    while min < max && count[min] == 0
      invariant 1 <= min <= MAXBITS && (max != 0 ==> min <= max)
      invariant forall l :: 1 <= l < min ==> count[l] == 0
    {
      min := min + 1;
    }
  }

  /** The `left` loop: how many codes of 15 bits are still free, or -1 if over-subscribed. */
  method FreeCodes(lens: seq<nat>, count: array<nat>) returns (left: int)
    requires ValidLengths(lens) && count.Length == MAXBITS + 1
    requires forall l :: 0 <= l <= MAXBITS ==> count[l] == |Filter(lens, l)|
    ensures if Kraft(lens, MAXBITS) <= Pow2(MAXBITS) then left == Pow2(MAXBITS) - Kraft(lens, MAXBITS)
            else left == -1
  {
    hide Shl, Kraft, Filter;
    left := 1;
    KraftNone(lens);
    for len := 1 to MAXBITS + 1
      invariant 0 <= left
      invariant Shl(left, MAXBITS - (len - 1)) + Kraft(lens, len - 1) == Pow2(MAXBITS)
    {
      ghost var d := MAXBITS - len;
      ShlDouble(left, d);
      KraftStep(lens, len - 1);
      ghost var twice := 2 * left;
      left := 2 * left - count[len];
      if left < 0 {
        ShlMono(twice, count[len], d);
        ShlMono(0, 1, d);
        KraftMono(lens, len, MAXBITS);
        return -1;
      }
      ShlAdd(left, count[len], d);
    }
    ShlNone(left);
  }

  lemma ShlNone(x: nat)
    ensures Shl(x, 0) == x
  {
  }

  lemma {:induction false} KraftMono(lens: seq<nat>, l: nat, m: nat)
    requires ValidLengths(lens) && l <= m <= MAXBITS
    ensures Kraft(lens, l) <= Kraft(lens, m)
  {
    if l < m {
      KraftMono(lens, l, m - 1);
      KraftStep(lens, m - 1);
    }
  }

  /** Counting sort of the symbols by length. */
  method SortSymbols(lens: seq<nat>, count: array<nat>, work: array<nat>)
    requires ValidLengths(lens) && count.Length == MAXBITS + 1 && |lens| <= work.Length && work != count
    requires forall l :: 0 <= l <= MAXBITS ==> count[l] == |Filter(lens, l)|
    modifies work
    ensures |Order(lens, MAXBITS)| <= work.Length
    ensures work[..|Order(lens, MAXBITS)|] == Order(lens, MAXBITS)
  {
    var offs := new nat[MAXBITS + 1](_ => 0);
    for len := 1 to MAXBITS
      invariant forall l :: 1 <= l <= len ==> offs[l] == |Order(lens, l - 1)|
    {
      offs[len + 1] := offs[len] + count[len];
    }
    OrderLength(lens, MAXBITS);
    BlocksEmpty(work[..], lens);
    for sym := 0 to |lens|
      invariant forall l :: 1 <= l <= MAXBITS ==> offs[l] == |Order(lens, l - 1)| + |Filter(lens[..sym], l)|
      invariant Blocks(work[..], lens, sym)
    {
      var l := lens[sym];
      ghost var was := work[..];
      assert lens[..sym + 1][..sym] == lens[..sym];
      if l != 0 {
        PlaceFits(lens, sym);
        work[offs[l]] := sym;
        offs[l] := offs[l] + 1;
        PlaceSymbol(was, work[..], lens, sym);
      } else {
        PlaceNothing(was, lens, sym);
      }
    }
    BlocksAreOrder(work[..], lens, MAXBITS);
  }

  /** After `sym` symbols, the block of every length holds the symbols seen so far. */
  ghost predicate Blocks(w: seq<nat>, lens: seq<nat>, sym: nat)
    requires sym <= |lens|
  {
    forall l :: 1 <= l <= MAXBITS ==> Block1(w, lens, sym, l)
  }

  ghost predicate Block1(w: seq<nat>, lens: seq<nat>, sym: nat, l: nat)
    requires sym <= |lens| && 1 <= l
  {
    var at, part := |Order(lens, l - 1)|, Filter(lens[..sym], l);
    at + |part| <= |w| && w[at..at + |part|] == part
  }

  lemma BlocksEmpty(w: seq<nat>, lens: seq<nat>)
    requires |lens| <= |w|
    ensures Blocks(w, lens, 0)
  {
    OrderLength(lens, MAXBITS);
    forall l | 1 <= l <= MAXBITS
      ensures Block1(w, lens, 0, l)
    {
      OrderPrefix(lens, l - 1, MAXBITS);
    }
  }

  lemma PlaceFits(lens: seq<nat>, sym: nat)
    requires ValidLengths(lens) && sym < |lens| && lens[sym] != 0
    ensures Rank(lens, sym) < |Order(lens, MAXBITS)| <= |lens|
  {
    RankInOrder(lens, sym);
    OrderLength(lens, MAXBITS);
  }

  /** The blocks of two lengths do not overlap. */
  lemma BlocksApart(lens: seq<nat>, sym: nat, l: nat, m: nat)
    requires sym <= |lens| && 1 <= l < m <= MAXBITS
    ensures |Order(lens, l - 1)| + |Filter(lens[..sym], l)| <= |Order(lens, m - 1)|
  {
    FilterPrefix(lens, sym, l);
    OrderPrefix(lens, l, m - 1);
  }

  lemma PlaceSymbol(w: seq<nat>, w': seq<nat>, lens: seq<nat>, sym: nat)
    requires ValidLengths(lens) && sym < |lens| && lens[sym] != 0
    requires Blocks(w, lens, sym) && Rank(lens, sym) < |w| && w' == w[Rank(lens, sym) := sym]
    ensures Blocks(w', lens, sym + 1)
  {
    var m := lens[sym];
    var n := sym + 1;
    assert lens[..n][..sym] == lens[..sym];
    forall l | 1 <= l <= MAXBITS
      ensures Block1(w', lens, n, l)
    {
      assert Block1(w, lens, sym, l);
      if l < m {
        BlocksApart(lens, sym, l, m);
      } else if m < l {
        BlocksApart(lens, sym + 1, m, l);
        assert |Filter(lens[..sym + 1], m)| == |Filter(lens[..sym], m)| + 1;
      }
    }
  }

  lemma PlaceNothing(w: seq<nat>, lens: seq<nat>, sym: nat)
    requires sym < |lens| && lens[sym] == 0 && Blocks(w, lens, sym)
    ensures Blocks(w, lens, sym + 1)
  {
    var n := sym + 1;
    assert lens[..n][..sym] == lens[..sym];
    forall l | 1 <= l <= MAXBITS
      ensures Block1(w, lens, n, l)
    {
      assert Block1(w, lens, sym, l);
    }
  }

  lemma {:induction false} BlocksAreOrder(w: seq<nat>, lens: seq<nat>, m: nat)
    requires m <= MAXBITS && Blocks(w, lens, |lens|)
    ensures |Order(lens, m)| <= |w| && w[..|Order(lens, m)|] == Order(lens, m)
  {
    if m != 0 {
      BlocksAreOrder(w, lens, m - 1);
      assert lens[..|lens|] == lens;
      assert Block1(w, lens, |lens|, m);
    }
  }

  // ---------------------------------------------------------------- inflate_table

  lemma {:induction false} OrderStops(lens: seq<nat>, a: nat, b: nat)
    requires a <= b
    requires forall l :: a < l <= b ==> |Filter(lens, l)| == 0
    ensures Order(lens, a) == Order(lens, b)
  {
    if a < b {
      OrderStops(lens, a, b - 1);
    }
  }

  lemma OrderStep(lens: seq<nat>, l: nat)
    requires 0 < l
    ensures Order(lens, l) == Order(lens, l - 1) + Filter(lens, l)
    ensures Order(lens, 0) == []
  {
  }

  lemma LastLength(lens: seq<nat>, max: nat)
    requires 1 <= max <= MAXBITS && |Filter(lens, max)| != 0
    requires forall l :: max < l <= MAXBITS ==> |Filter(lens, l)| == 0
    ensures var ls := SortedLens(lens); 0 < |ls| && ls[|ls| - 1] == max
  {
    OrderStep(lens, max);
    OrderStops(lens, max, MAXBITS);
    FilterFacts(lens, max);
    hide Order, Filter;
    var f := Filter(lens, max);
    assert Order(lens, MAXBITS)[|Order(lens, MAXBITS)| - 1] == f[|f| - 1];
  }

  lemma FirstLength(lens: seq<nat>, min: nat)
    requires 1 <= min <= MAXBITS && |Filter(lens, min)| != 0
    requires forall l :: 1 <= l < min ==> |Filter(lens, l)| == 0
    ensures var ls := SortedLens(lens); 0 < |ls| && ls[0] == min
  {
    OrderStep(lens, min);
    OrderStops(lens, 0, min - 1);
    OrderPrefix(lens, min, MAXBITS);
    FilterFacts(lens, min);
    hide Order, Filter;
    assert Order(lens, MAXBITS)[0] == Filter(lens, min)[0];
  }

  /** The length bounds found in the counts are those of the sorted symbols. */
  lemma BoundsOfSorted(lens: seq<nat>, min: nat, max: nat)
    requires ValidLengths(lens) && max <= MAXBITS
    requires forall l :: max < l <= MAXBITS ==> |Filter(lens, l)| == 0
    requires max != 0 ==> |Filter(lens, max)| != 0 && 1 <= min <= max && |Filter(lens, min)| != 0
    requires max != 0 ==> forall l :: 1 <= l < min ==> |Filter(lens, l)| == 0
    ensures var ls := SortedLens(lens);
      if max == 0 then |ls| == 0 else 0 < |ls| && ls[0] == min && ls[|ls| - 1] == max
  {
    hide Order, Filter, SortedLens;
    if max == 0 {
      OrderStep(lens, 1);
      OrderStops(lens, 0, MAXBITS);
    } else {
      LastLength(lens, max);
      FirstLength(lens, min);
    }
  }

  lemma CountsOfSorted(lens: seq<nat>, l: nat)
    requires ValidLengths(lens) && 1 <= l <= MAXBITS
    ensures CountFrom(SortedLens(lens), l, 0) == |Filter(lens, l)|
  {
    hide Order, Filter, CountFrom;
    var ls := SortedLens(lens);
    var e := |Order(lens, l - 1)|;
    OrderStep(lens, l);
    SortedLensFacts(lens);
    OrderFacts(lens, l - 1);
    OrderSuffix(lens, l - 1, MAXBITS);
    OrderSuffix(lens, l, MAXBITS);
    FilterFacts(lens, l);
    forall i | 0 <= i < e
      ensures ls[i] < l
    {
      assert Order(lens, MAXBITS)[i] == Order(lens, l - 1)[i];
    }
    forall i | e <= i < e + |Filter(lens, l)|
      ensures ls[i] == l
    {
      assert Order(lens, MAXBITS)[i] == Order(lens, l)[i] == Filter(lens, l)[i - e];
    }
    CountRun(ls, l, 0, e);
    var c, f := CountFrom(ls, l, 0), |Filter(lens, l)|;
    // The two entries at which runs of different lengths would disagree.
    var x := if e + c < |ls| then ls[e + c] else l;
    var y := if e + f < |ls| then lens[Order(lens, MAXBITS)[e + f]] else l;
  }

  /** When all symbols are entered, the table decodes the code. */
  lemma EnteredDecodes(t: seq<Code>, lens: seq<nat>, ty: CodeType, root: nat)
    requires ValidLengths(lens) && |lens| <= SymbolLimit(ty)
    requires Sorted(SortedLens(lens))
    requires forall k :: 0 <= k < |Order(lens, MAXBITS)| ==> Order(lens, MAXBITS)[k] < SymbolLimit(ty)
    requires Entered(t, SortedLens(lens), Order(lens, MAXBITS), ty, root, |SortedLens(lens)|)
    ensures Decodes(t, root, ty, lens)
  {
    hide Good, Resolves, SymbolEntry, Huff, Order, Filter, CodeValue, Rank, Low;
    forall s, hold: nat |
      0 <= s < |lens| && lens[s] != 0 && Low(hold, lens[s]) == Rev(CodeValue(lens, s), lens[s])
      ensures Resolves(t, root, hold, lens[s], SymbolEntry(ty, s, 0))
    {
      HuffIsCodeValue(lens, s);
      RankInOrder(lens, s);
      var k := Rank(lens, s);
      GoodResolves(t, root, Huff(SortedLens(lens), k), lens[s], SymbolEntry(ty, s, 0), hold);
    }
  }

  /** A sorted code of one-bit words that is not complete has a single word. */
  lemma SingleCode(ls: seq<nat>)
    requires Sorted(ls) && 0 < |ls| && ls[|ls| - 1] == 1 && Start(ls, |ls|) < Pow2(MAXBITS)
    ensures ls == [1] && Huff(ls, 1) == 1
  {
    StartRun(ls, 0, |ls|, 1);
    ShlMono(2, |ls|, MAXBITS - 1);
    ShlShl(1, 1, MAXBITS - 1);
    assert Shl(1, 1) == 2 * Shl(1, 0);
    RevScaled(1, 1, MAXBITS);
    RevOne(1);
  }

  lemma CompleteEnd(ls: seq<nat>)
    requires Complete(ls)
    ensures Huff(ls, |ls|) == 0
  {
    RevScaled(1, 0, MAXBITS);
  }

  /** The loop that marks the unused indices of an incomplete code. It has nothing to do for
      a complete code, and one index for the only incomplete code that is let through. */
  method MarkUnused(table: array<Code>, base: nat, root: nat, huff0: nat, len0: nat, c: Cursor)
    requires huff0 == 0 || (huff0 == 1 && len0 == 1 && c.drop == 0 && c.next == 0)
    requires huff0 != 0 ==> base + 1 < table.Length
    requires c.drop <= len0
    modifies table
    ensures table[..] == if huff0 == 0 then old(table[..]) else old(table[..])[base + 1 := Code(INVALID_OP, 1, 0)]
  {
    var huff, len := huff0, len0;
    var drop: int, next: int := c.drop, c.next;
    var here := Code(INVALID_OP, len - drop, 0);
    ghost var first := true;
    while huff != 0
      invariant huff == 0 || (huff == 1 && len == 1 && drop == 0 && next == 0 && here == Code(INVALID_OP, 1, 0))
      invariant first ==> huff == huff0 && table[..] == old(table[..])
      invariant !first ==> huff == 0 && huff0 != 0 && table[..] == old(table[..])[base + 1 := Code(INVALID_OP, 1, 0)]
      decreases huff
    {
      if drop != 0 && Low(huff, root) != c.low {
        drop := 0;
        len := root;
        next := 0;
        here := here.(bits := root);
      }
      assert Shr(1, 0) == 1 && Pow2(1) == 2 * Pow2(0);
      table[base + next + Shr(huff, drop)] := here;
      huff := IncrementBackwards(huff, len);
      first := false;
    }
  }

  /** Entries for the tables, and lengths, that a caller must provide. */
  ghost predicate Space(ty: CodeType, lens: seq<nat>, bits: nat, room: int) {
    if ty == CODES then Pow2(bits) <= room && forall i :: 0 <= i < |lens| ==> lens[i] <= bits
    else Limit(ty) <= room
  }

  /** Which length sets are refused: over-subscribed ones, and incomplete ones other than a
      single one-bit code in a literal/length or distance code. */
  ghost predicate Refused(ty: CodeType, lens: seq<nat>)
    requires ValidLengths(lens)
  {
    var k := Kraft(lens, MAXBITS);
    || Pow2(MAXBITS) < k
    || (0 < k < Pow2(MAXBITS) && (ty == CODES || exists i :: 0 <= i < |lens| && 1 < lens[i]))
  }

  method InflateTable(ty: CodeType, lens: seq<nat>, table: array<Code>, base: nat, bits: nat, work: array<nat>)
    returns (ret: int, root: nat, used: nat)
    requires ValidLengths(lens) && |lens| <= SymbolLimit(ty) && |lens| <= work.Length
    requires 1 <= bits && Space(ty, lens, bits, table.Length - base)
    modifies table, work
    ensures -1 <= ret <= 1 && (ret == 1 ==> ty != CODES)
    ensures ret == 1 ==> OutOfSpace(ty, Pow2(bits)) || exists i :: 0 <= i < |lens| && bits < lens[i]
    ensures ret == -1 <==> Refused(ty, lens)
    ensures table[..base] == old(table[..base])
    ensures ret == 0 ==> base + used <= table.Length && (ty != CODES ==> used < Limit(ty))
    ensures ret == 0 && ty == CODES ==> forall i :: 0 <= i < |lens| ==> lens[i] <= root
    ensures ret == 0 && Kraft(lens, MAXBITS) != 0 ==> Decodes(table[base..base + used], root, ty, lens)
    ensures ret == 0 && Kraft(lens, MAXBITS) == 0 ==>
              root == 1 && table[base..base + used] == [Code(INVALID_OP, 1, 0), Code(INVALID_OP, 1, 0)]
    ensures ret == 0 && 0 < Kraft(lens, MAXBITS) < Pow2(MAXBITS) ==>
              root == 1 && used == 2 && table[base + 1] == Code(INVALID_OP, 1, 0)
  {
    hide Decodes, Filter, Order, Shl, Entered, Layout, CountFrom, Huff, Start;
    ghost var ls := SortedLens(lens);
    SortedLensFacts(lens);
    root, used := bits, 0;
    var count := CountLengths(lens);
    var min, max := LengthBounds(count);
    BoundsOfSorted(lens, min, max);
    StartIsKraft(lens, MAXBITS);
    LengthsAtMost(lens, max);
    if root > max {
      root := max;
    }
    Pow2Mono(1, bits);
    assert Pow2(1) == 2 by { RevealPow2(); }
    if max == 0 {
      NoSymbols(ls);
      table[base] := Code(INVALID_OP, 1, 0);
      table[base + 1] := Code(INVALID_OP, 1, 0);
      return 0, 1, 2;
    }
    if root < min {
      root := min;
    }
    StartPositive(ls);
    var left := FreeCodes(lens, count);
    if left < 0 {
      return -1, root, used;
    }
    if left > 0 && (ty == CODES || max != 1) {
      return -1, root, used;
    }
    SortSymbols(lens, count, work);
    forall l | 1 <= l <= MAXBITS
      ensures count[l] == CountFrom(ls, l, 0)
    {
      CountsOfSorted(lens, l);
    }
    Pow2Mono(root, bits);
    var ok, huff, c := EnterSymbols(ty, lens, work, count, table, base, root, min, max);
    if !ok {
      if OutOfSpace(ty, Pow2(root)) {
        Pow2Mono(root, bits);
      }
      return 1, root, used;
    }
    if left == 0 {
      CompleteEnd(ls);
    } else {
      SingleCode(ls);
    }
    FinishTable(ty, lens, table, base, root, huff, max, c);
    ret, used := 0, c.used;
  }

  /** Mark the unused code of an incomplete table; the table is then complete. */
  method FinishTable(ty: CodeType, lens: seq<nat>, table: array<Code>, base: nat, root: nat, huff: nat, max: nat,
                     c: Cursor)
    requires ValidLengths(lens) && |lens| <= SymbolLimit(ty) && base <= table.Length
    requires forall k :: 0 <= k < |Order(lens, MAXBITS)| ==> Order(lens, MAXBITS)[k] < SymbolLimit(ty)
    requires var ls := SortedLens(lens);
      && Fits(ls) && 0 < |ls| && Entered(table[base..], ls, Order(lens, MAXBITS), ty, root, |ls|)
      && Placed(table[base..], ls, root, |ls| - 1, c) && max == ls[|ls| - 1]
      && (huff == 0 || (huff == 1 && ls == [1] && root == 1))
    modifies table
    ensures table[..base] == old(table[..base])
    ensures base + c.used <= table.Length && Decodes(table[base..base + c.used], root, ty, lens)
    ensures huff != 0 ==> c.used == 2 && table[base + 1] == Code(INVALID_OP, 1, 0)
  {
    hide Decodes, Order, Entered, Layout, SortedLens, SymbolEntry, Fits;
    ghost var ls, t := SortedLens(lens), table[base..];
    CursorFacts(t, ls, root, c);
    assert Pow2(1) == 2 by { RevealPow2(); }
    hide Shl, Placed;
    ghost var all := table[..];
    MarkUnused(table, base, root, huff, max, c);
    Marked(all, table[..], base, huff);
    AllEntered(t, table[base..], lens, ty, root, c, huff);
    SliceOf(table[..], base, c.used);
  }

  lemma Marked(all: seq<Code>, all': seq<Code>, base: nat, huff: nat)
    requires base <= |all| && (huff != 0 ==> base + 1 < |all|)
    requires all' == if huff == 0 then all else all[base + 1 := Code(INVALID_OP, 1, 0)]
    ensures huff == 0 ==> all'[base..] == all[base..]
    ensures huff != 0 ==> all'[base..] == all[base..][1 := Code(INVALID_OP, 1, 0)]
    ensures all'[..base] == all[..base]
  {
  }

  lemma SliceOf(t: seq<Code>, base: nat, used: nat)
    requires base + used <= |t|
    ensures t[base..][..used] == t[base..base + used]
  {
  }

  lemma RevealPow2()
    ensures Pow2(1) == 2
  {
    assert Shl(1, 1) == 2 * Shl(1, 0);
  }

  lemma NoSymbols(ls: seq<nat>)
    requires |ls| == 0
    ensures Start(ls, |ls|) == 0
  {
  }

  lemma StartPositive(ls: seq<nat>)
    requires Sorted(ls) && 0 < |ls|
    ensures 0 < Start(ls, |ls|)
  {
    StartMono(ls, 0, |ls|);
    Pow2Mono(MAXBITS - ls[0], 0);
  }

  /** `max` bounds the lengths, and is itself one of them. */
  lemma LengthsAtMost(lens: seq<nat>, max: nat)
    requires ValidLengths(lens)
    requires var ls := SortedLens(lens);
      if max == 0 then |ls| == 0 else 0 < |ls| && Sorted(ls) && ls[|ls| - 1] == max
    ensures forall i :: 0 <= i < |lens| ==> lens[i] <= max
    ensures max != 0 ==> exists i :: 0 <= i < |lens| && lens[i] == max
  {
    SortedLensFacts(lens);
    forall i | 0 <= i < |lens|
      ensures lens[i] <= max
    {
      if lens[i] != 0 {
        RankInOrder(lens, i);
        assert SortedLens(lens)[Rank(lens, i)] == lens[i];
      }
    }
  }

  lemma CursorFacts(t: seq<Code>, ls: seq<nat>, root: nat, c: Cursor)
    requires 0 < |ls| && Placed(t, ls, root, |ls| - 1, c)
    ensures Pow2(root) <= c.used <= |t| && c.drop <= ls[|ls| - 1]
    ensures ls[|ls| - 1] <= root ==> c.drop == 0 && c.next == 0 && c.used == Pow2(root)
  {
  }

  /** After the unused index is marked, all symbols are still entered. */
  lemma AllEntered(t: seq<Code>, t': seq<Code>, lens: seq<nat>, ty: CodeType, root: nat, c: Cursor, huff: nat)
    requires ValidLengths(lens) && |lens| <= SymbolLimit(ty)
    requires forall k :: 0 <= k < |Order(lens, MAXBITS)| ==> Order(lens, MAXBITS)[k] < SymbolLimit(ty)
    requires var ls := SortedLens(lens);
      && Fits(ls) && 0 < |ls| && Entered(t, ls, Order(lens, MAXBITS), ty, root, |ls|)
      && Placed(t, ls, root, |ls| - 1, c)
      && (huff == 0 || (ls == [1] && root == 1))
    requires huff == 0 ==> t' == t
    requires huff != 0 ==> 1 < |t| && t' == t[1 := Code(INVALID_OP, 1, 0)]
    ensures c.used <= |t'| && Decodes(t'[..c.used], root, ty, lens)
  {
    hide SymbolEntry, Order;
    var ls, syms := SortedLens(lens), Order(lens, MAXBITS);
    if huff != 0 {
      var e := SymbolEntry(ty, syms[0], 0);
      assert Good(t, root, Huff(ls, 0), ls[0], e);
      assert Good(t', root, Huff(ls, 0), ls[0], e) by {
        RevZero(MAXBITS);
        RevealPow2();
        assert Low(1, 1) == 1;
      }
    }
    Truncate(t', ls, syms, ty, root, c.next, c.curr, c.low, c.used);
    EnteredDecodes(t'[..c.used], lens, ty, root);
  }
}

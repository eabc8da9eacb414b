/** The constants of the deflate format (RFC 1951) in closed form: what the decoder does with a
    field is stated by the bits of the field and by arithmetic, without the tables that the
    coder and the decoder read. */
module Format {
  import opened Bits
  import opened Canonical
  import opened BitIO
  import opened InflateTable
  import opened Symbols
  import opened StaticTables
  import opened Reference
  import opened InflateSteps
  import opened Headers

  /** A bit as a number. */
  function Unit(b: bool): nat {
    if b then 1 else 0
  }

  lemma OneBit(rest: seq<bool>, at: nat)
    requires at < |rest|
    ensures Val(rest, at, 1) == Unit(rest[at])
  {
    var f := rest[at..at + 1];
    assert ValueOf(f[1..]) == 0;
  }

  /** The first bit of a field is its lowest. */
  lemma LowFirst(rest: seq<bool>, at: nat, n: nat)
    requires 0 < n && at + n <= |rest|
    ensures Val(rest, at, n) == Unit(rest[at]) + 2 * Val(rest, at + 1, n - 1)
  {
    var f := rest[at..at + n];
    assert f[1..] == rest[at + 1..at + n];
  }

  lemma NoBits(rest: seq<bool>, at: nat)
    requires at <= |rest|
    ensures Val(rest, at, 0) == 0
  {
  }

  lemma TwoBits(rest: seq<bool>, at: nat)
    requires at + 2 <= |rest|
    ensures Val(rest, at, 2) == Unit(rest[at]) + 2 * Unit(rest[at + 1])
  {
    hide Val;
    LowFirst(rest, at, 2);
    OneBit(rest, at + 1);
  }

  lemma ThreeBits(rest: seq<bool>, at: nat)
    requires at + 3 <= |rest|
    ensures Val(rest, at, 3) == Unit(rest[at]) + 2 * Unit(rest[at + 1]) + 4 * Unit(rest[at + 2])
  {
    hide Val;
    LowFirst(rest, at, 3);
    TwoBits(rest, at + 1);
  }

  lemma FourBits(rest: seq<bool>, at: nat)
    requires at + 4 <= |rest|
    ensures Val(rest, at, 4) ==
      Unit(rest[at]) + 2 * Unit(rest[at + 1]) + 4 * Unit(rest[at + 2]) + 8 * Unit(rest[at + 3])
  {
    hide Val;
    LowFirst(rest, at, 4);
    ThreeBits(rest, at + 1);
  }

  lemma FiveBits(rest: seq<bool>, at: nat)
    requires at + 5 <= |rest|
    ensures Val(rest, at, 5) ==
      Unit(rest[at]) + 2 * Unit(rest[at + 1]) + 4 * Unit(rest[at + 2]) + 8 * Unit(rest[at + 3])
        + 16 * Unit(rest[at + 4])
  {
    hide Val;
    LowFirst(rest, at, 5);
    FourBits(rest, at + 1);
  }

  lemma SevenBits(rest: seq<bool>, at: nat)
    requires at + 7 <= |rest|
    ensures Val(rest, at, 7) ==
      Unit(rest[at]) + 2 * Unit(rest[at + 1]) + 4 * Unit(rest[at + 2]) + 8 * Unit(rest[at + 3])
      + 16 * Unit(rest[at + 4]) + 32 * Unit(rest[at + 5]) + 64 * Unit(rest[at + 6])
  {
    hide Val;
    LowFirst(rest, at, 7);
    LowFirst(rest, at + 1, 6);
    FiveBits(rest, at + 2);
  }

  // ---------------------------------------------------------------- blocks

  /** Section 3.2.3: one bit for the last block, then the type, low bit first: 00 stored, 01
      fixed codes, 10 codes in the block, 11 an error. */
  lemma BlockTypes(s: State, rest: seq<bool>)
    requires s.mode.Type? && !s.last && 3 <= |rest|
    ensures var r := Step(s, rest);
      && r.Next? && r.used == 3 && r.state.last == rest[0] && r.state.out == s.out
      && (r.state.mode.Stored? <==> !rest[1] && !rest[2])
      && (r.state.mode.Len? <==> rest[1] && !rest[2])
      && (r.state.mode.Table? <==> !rest[1] && rest[2])
      && (r.state.mode.Bad? <==> rest[1] && rest[2])
  {
    TwoBits(rest, 1);
    hide Val, FIXED_LL, FIXED_DL;
  }

  /** Section 3.2.6: the fixed code lengths. */
  lemma FixedLengths(s: State, rest: seq<bool>)
    requires s.mode.Type? && !s.last && 3 <= |rest| && rest[1] && !rest[2]
    ensures Step(s, rest).Next?
    ensures var t := Step(s, rest).state;
      && |t.ll| == 288 && |t.dl| == 32 && (forall n :: 0 <= n < 32 ==> t.dl[n] == 5)
      && forall n :: 0 <= n < 288 ==>
        t.ll[n] == if n <= 143 then 8 else if n <= 255 then 9 else if n <= 279 then 7 else 8
  {
    TwoBits(rest, 1);
    hide Val;
  }

  /** Section 3.2.4: after the padding, two bytes of length and its complement, low byte first. */
  lemma StoredLength(s: State, rest: seq<bool>)
    requires s.mode.Stored? && 32 <= |rest| && |rest| % 8 == 0
    ensures var n, c := ValueOf(rest[..16]), ValueOf(rest[16..32]);
      Step(s, rest) == if n + c == 65535 then Next(s.(mode := Copy(n)), 32) else Next(s.(mode := Bad), 0)
  {
    assert rest[0..16] == rest[..16];
    hide ValueOf;
  }

  // ---------------------------------------------------------------- headers

  /** Section 3.2.7: five bits, five bits and four bits of counts, offset by 257, 1 and 4. */
  lemma Counts(s: State, rest: seq<bool>)
    requires s.mode.Table? && 14 <= |rest|
    ensures var nlen := 257 + Unit(rest[0]) + 2 * Unit(rest[1]) + 4 * Unit(rest[2]) + 8 * Unit(rest[3])
      + 16 * Unit(rest[4]);
      var ndist := 1 + Unit(rest[5]) + 2 * Unit(rest[6]) + 4 * Unit(rest[7]) + 8 * Unit(rest[8]) + 16 * Unit(rest[9]);
      var ncode := 4 + Unit(rest[10]) + 2 * Unit(rest[11]) + 4 * Unit(rest[12]) + 8 * Unit(rest[13]);
      Step(s, rest) == Next(s.(mode := if nlen > 286 || ndist > 30 then Bad else LenLens(nlen, ndist, ncode, [])), 14)
  {
    hide Val;
    FiveBits(rest, 0);
    FiveBits(rest, 5);
    FourBits(rest, 10);
  }

  /** Length `p` of those that were sent, 0 if it was not. */
  function Sent(got: seq<nat>, p: nat): nat {
    if p < |got| then got[p] else 0
  }

  /** The code length code is sent in the order 16, 17, 18, 0, and then alternately up from 8
      and down from 7. */
  lemma CodeLengthOrder(got: seq<nat>)
    requires |got| <= 19
    ensures var cl := LengthsSent(got);
      && |cl| == 19
      && cl[16] == Sent(got, 0) && cl[17] == Sent(got, 1) && cl[18] == Sent(got, 2) && cl[0] == Sent(got, 3)
      && (forall j :: 0 <= j < 8 ==> cl[8 + j] == Sent(got, 4 + 2 * j))
      && (forall j :: 0 <= j < 7 ==> cl[7 - j] == Sent(got, 5 + 2 * j))
  {
    hide LengthsSent;
    forall k | 0 <= k < 19
      ensures LengthsSent(got)[k] == Sent(got, PLACE[k])
    {
      PlacedAt(got, k, PLACE[k]);
    }
    PlaceClosed();
  }

  lemma PlaceClosed()
    ensures PLACE[16] == 0 && PLACE[17] == 1 && PLACE[18] == 2 && PLACE[0] == 3
    ensures forall j :: 0 <= j < 8 ==> PLACE[8 + j] == 4 + 2 * j
    ensures forall j :: 0 <= j < 7 ==> PLACE[7 - j] == 5 + 2 * j
  {
  }

  /** ... and `send_all_trees` sends them in three bits each, in that order. */
  lemma SentFields(cl: seq<nat>, n: nat)
    requires |cl| == 19 && n <= 19
    ensures var bits := RankBits(cl, n);
      && |bits| == 3 * n
      && (0 < n ==> Field(bits, 0, cl[16])) && (1 < n ==> Field(bits, 1, cl[17])) && (2 < n ==> Field(bits, 2, cl[18]))
      && (3 < n ==> Field(bits, 3, cl[0]))
      && (forall j :: 0 <= j < 8 && 4 + 2 * j < n ==> Field(bits, 4 + 2 * j, cl[8 + j]))
      && (forall j :: 0 <= j < 7 && 5 + 2 * j < n ==> Field(bits, 5 + 2 * j, cl[7 - j]))
  {
    hide RankBits, Field;
    RankLength(cl, n);
    forall k | 0 <= k < 19 && PLACE[k] < n
      ensures Field(RankBits(cl, n), PLACE[k], cl[k])
    {
      OrderPlace(k);
      RankField(cl, n, PLACE[k]);
    }
    PlaceClosed();
  }

  /** The three bits of field `p`, low bit first. */
  predicate Field(bits: seq<bool>, p: nat, v: nat) {
    3 * p + 3 <= |bits| && bits[3 * p..3 * p + 3] == BitsOf(v, 3)
  }

  lemma {:induction false} RankLength(cl: seq<nat>, n: nat)
    requires |cl| == 19 && n <= 19
    ensures |RankBits(cl, n)| == 3 * n
  {
    if n != 0 {
      OrderPlace(n - 1);
      RankLength(cl, n - 1);
    }
  }

  lemma {:induction false} RankField(cl: seq<nat>, n: nat, p: nat)
    requires |cl| == 19 && p < n <= 19
    ensures ORDER[p] < 19 && Field(RankBits(cl, n), p, cl[ORDER[p]])
  {
    hide BitsOf;
    OrderPlace(n - 1);
    OrderPlace(p);
    RankLength(cl, n - 1);
    var front, last := RankBits(cl, n - 1), BitsOf(cl[ORDER[n - 1]], 3);
    if p < n - 1 {
      RankField(cl, n - 1, p);
      assert (front + last)[3 * p..3 * p + 3] == front[3 * p..3 * p + 3];
    } else {
      assert (front + last)[3 * p..3 * p + 3] == last;
    }
  }

  /** The symbols of the code length code: lengths, 3 to 6 copies of the length before, 3 to
      10 zeros, 11 to 138 zeros. */
  lemma Runs(s: State, rest: seq<bool>, v: nat, n: nat)
    requires s.mode.CodeLens? && |s.mode.lens| < s.mode.nlen + s.mode.ndist && v < |s.mode.cl|
    requires SymbolAt(CODES, s.mode.cl, rest) == Symbol(v) && n == s.mode.cl[v]
    ensures v < 16 ==> Grows(s, rest, v, 1, n)
    ensures v == 16 && n + 2 <= |rest| && s.mode.lens == [] ==> Step(s, rest) == Next(s.(mode := Bad), n)
    ensures v == 16 && n + 2 <= |rest| && s.mode.lens != [] ==>
      Grows(s, rest, s.mode.lens[|s.mode.lens| - 1], 3 + Unit(rest[n]) + 2 * Unit(rest[n + 1]), n + 2)
    ensures v == 17 && n + 3 <= |rest| ==>
      Grows(s, rest, 0, 3 + Unit(rest[n]) + 2 * Unit(rest[n + 1]) + 4 * Unit(rest[n + 2]), n + 3)
    ensures v == 18 && n + 7 <= |rest| ==>
      Grows(s, rest, 0, 11 + Unit(rest[n]) + 2 * Unit(rest[n + 1]) + 4 * Unit(rest[n + 2]) + 8 * Unit(rest[n + 3])
        + 16 * Unit(rest[n + 4]) + 32 * Unit(rest[n + 5]) + 64 * Unit(rest[n + 6]), n + 7)
  {
    hide Val, SymbolAt, Usable;
    if n + 2 <= |rest| { TwoBits(rest, n); }
    if n + 3 <= |rest| { ThreeBits(rest, n); }
    if n + 7 <= |rest| { SevenBits(rest, n); }
  }

  /** The step consumes `used` bits and adds `n` lengths `v`, unless they are too many. */
  ghost predicate Grows(s: State, rest: seq<bool>, v: nat, n: nat, used: nat)
    requires s.mode.CodeLens?
  {
    var r, lens := Step(s, rest), s.mode.lens;
    && r.Next? && r.used == used
    && (|lens| + n > s.mode.nlen + s.mode.ndist ==> r.state == s.(mode := Bad))
    && (|lens| + n <= s.mode.nlen + s.mode.ndist ==>
          && r.state.mode.CodeLens? && r.state == s.(mode := s.mode.(lens := r.state.mode.lens))
          && |r.state.mode.lens| == |lens| + n && r.state.mode.lens[..|lens|] == lens
          && forall i :: |lens| <= i < |lens| + n ==> r.state.mode.lens[i] == v)
  }

  // ---------------------------------------------------------------- symbols

  /** Base and extra bits of a length code. */
  function LBase(c: nat): nat
    requires c < 29
  {
    LBASE[c]
  }

  function LExtra(c: nat): nat
    requires c < 29
  {
    LEXT[c] % 16
  }

  lemma LengthStepIs(s: State, rest: seq<bool>, sym: nat)
    requires s.mode.Len? && SymbolAt(LENS, s.ll, rest) == Symbol(sym) && sym < |s.ll|
    ensures Step(s, rest) == Next(s.(mode := if sym < 256 then Lit(sym) else if sym == 256 then Type
      else if sym < 286 then LenExt(LBase(sym - 257), LExtra(sym - 257)) else Bad), s.ll[sym])
  {
    hide SymbolAt;
  }

  /** Section 3.2.5: bytes, the end of the block, and match lengths. Codes 257 to 264 mean one
      length each from 3 on; then four codes for every number of extra bits; 285 means 258. */
  lemma LengthSymbols(s: State, rest: seq<bool>, sym: nat)
    requires s.mode.Len? && SymbolAt(LENS, s.ll, rest) == Symbol(sym) && sym < |s.ll|
    ensures Step(s, rest).Next? && Step(s, rest).used == s.ll[sym]
    ensures var m := Step(s, rest).state.mode;
      && Step(s, rest).state == s.(mode := m)
      && (sym < 256 ==> m == Lit(sym)) && (sym == 256 ==> m == Type)
      && (257 <= sym < 265 ==> m == LenExt(sym - 254, 0))
      && (265 <= sym < 285 ==> var e := (sym - 261) / 4; m == LenExt(3 + Shl(4 + (sym - 261) % 4, e), e))
      && (sym == 285 ==> m == LenExt(258, 0)) && (286 <= sym ==> m == Bad)
  {
    hide SymbolAt, Shl, Step, LBase, LExtra;
    LengthStepIs(s, rest, sym);
    if 257 <= sym < 286 {
      LengthClosed(sym - 257);
    }
  }

  lemma LengthClosed(c: nat)
    requires c < 29
    ensures c < 8 ==> LBase(c) == c + 3 && LExtra(c) == 0
    ensures c == 28 ==> LBase(c) == 258 && LExtra(c) == 0
    ensures 8 <= c < 28 ==> var e := (c - 4) / 4; LExtra(c) == e && LBase(c) == 3 + Shl(4 + (c - 4) % 4, e)
  {
    hide Shl, LBase, LExtra;
    if c < 8 || c == 28 {
      LengthSingle(c);
    } else {
      var e, j := (c - 4) / 4, (c - 4) % 4;
      assert c == 4 * e + 4 + j;
      if e <= 2 {
        LengthLow(e, j);
      } else if e <= 4 {
        LengthMiddle(e, j);
      } else {
        LengthHigh(j);
      }
    }
  }

  lemma LengthSingle(c: nat)
    requires c < 8 || c == 28
    ensures LBase(c) == (if c < 8 then c + 3 else 258) && LExtra(c) == 0
  {
  }

  lemma LengthLow(e: nat, j: nat)
    requires 1 <= e <= 2 && j < 4
    ensures LBase(4 * e + 4 + j) == 3 + Shl(4 + j, e) && LExtra(4 * e + 4 + j) == e
  {
    hide Shl;
    Doubled(4 + j, e);
  }

  lemma LengthMiddle(e: nat, j: nat)
    requires 3 <= e <= 4 && j < 4
    ensures LBase(4 * e + 4 + j) == 3 + Shl(4 + j, e) && LExtra(4 * e + 4 + j) == e
  {
    hide Shl;
    Doubled(4 + j, e);
  }

  lemma LengthHigh(j: nat)
    requires j < 4
    ensures LBase(24 + j) == 3 + Shl(4 + j, 5) && LExtra(24 + j) == 5
  {
    hide Shl;
    Doubled(4 + j, 5);
  }

  /** The first few powers of two, without multiplication. */
  lemma Doubled(x: nat, e: nat)
    requires e <= 13
    ensures e == 0 ==> Shl(x, e) == x
    ensures e == 1 ==> Shl(x, e) == 2 * x
    ensures e == 2 ==> Shl(x, e) == 4 * x
    ensures e == 3 ==> Shl(x, e) == 8 * x
    ensures e == 4 ==> Shl(x, e) == 16 * x
    ensures e == 5 ==> Shl(x, e) == 32 * x
    ensures e == 6 ==> Shl(x, e) == 64 * x
    ensures e == 7 ==> Shl(x, e) == 128 * x
    ensures e == 8 ==> Shl(x, e) == 256 * x
    ensures e == 9 ==> Shl(x, e) == 512 * x
    ensures e == 10 ==> Shl(x, e) == 1024 * x
    ensures e == 11 ==> Shl(x, e) == 2048 * x
    ensures e == 12 ==> Shl(x, e) == 4096 * x
    ensures e == 13 ==> Shl(x, e) == 8192 * x
  {
    if 0 < e {
      Doubled(x, e - 1);
    }
  }

  function DBase(c: nat): nat
    requires c < 30
  {
    DBASE[c]
  }

  function DExtra(c: nat): nat
    requires c < 30
  {
    DEXT[c] % 16
  }

  lemma DistStepIs(s: State, rest: seq<bool>, sym: nat)
    requires s.mode.Dist? && SymbolAt(DISTS, s.dl, rest) == Symbol(sym) && sym < |s.dl|
    ensures Step(s, rest) ==
      Next(s.(mode := if sym < 30 then DistExt(s.mode.length, DBase(sym), DExtra(sym)) else Bad), s.dl[sym])
  {
    hide SymbolAt;
  }

  /** Distances: codes 0 to 3 mean one each, then two codes for every number of extra bits. */
  lemma DistanceSymbols(s: State, rest: seq<bool>, sym: nat)
    requires s.mode.Dist? && SymbolAt(DISTS, s.dl, rest) == Symbol(sym) && sym < |s.dl|
    ensures Step(s, rest).Next? && Step(s, rest).used == s.dl[sym]
    ensures var m := Step(s, rest).state.mode;
      && Step(s, rest).state == s.(mode := m)
      && (sym < 4 ==> m == DistExt(s.mode.length, sym + 1, 0))
      && (4 <= sym < 30 ==>
            var e := (sym - 2) / 2; m == DistExt(s.mode.length, 1 + Shl(2 + sym % 2, e), e))
      && (30 <= sym ==> m == Bad)
  {
    hide SymbolAt, Shl, Step, DBase, DExtra;
    DistStepIs(s, rest, sym);
    if sym < 30 {
      DistClosed(sym);
    }
  }

  lemma DistClosed(c: nat)
    requires c < 30
    ensures c < 4 ==> DBase(c) == c + 1 && DExtra(c) == 0
    ensures 4 <= c ==> var e := (c - 2) / 2; DExtra(c) == e && DBase(c) == 1 + Shl(2 + c % 2, e)
  {
    hide Shl, DBase, DExtra;
    if c < 4 {
      DistSingle(c);
    } else {
      var e, j := (c - 2) / 2, c % 2;
      assert c == 2 * e + 2 + j;
      if e <= 4 {
        DistLow(e, j);
      } else if e <= 7 {
        DistMiddle(e, j);
      } else if e <= 10 {
        DistHigh(e, j);
      } else {
        DistLast(e, j);
      }
    }
  }

  lemma DistSingle(c: nat)
    requires c < 4
    ensures DBase(c) == c + 1 && DExtra(c) == 0
  {
  }

  lemma DistLow(e: nat, j: nat)
    requires 1 <= e <= 4 && j < 2
    ensures DBase(2 * e + 2 + j) == 1 + Shl(2 + j, e) && DExtra(2 * e + 2 + j) == e
  {
    hide Shl;
    Doubled(2 + j, e);
  }

  lemma DistMiddle(e: nat, j: nat)
    requires 5 <= e <= 7 && j < 2
    ensures DBase(2 * e + 2 + j) == 1 + Shl(2 + j, e) && DExtra(2 * e + 2 + j) == e
  {
    hide Shl;
    Doubled(2 + j, e);
  }

  lemma DistHigh(e: nat, j: nat)
    requires 8 <= e <= 10 && j < 2
    ensures DBase(2 * e + 2 + j) == 1 + Shl(2 + j, e) && DExtra(2 * e + 2 + j) == e
  {
    hide Shl;
    Doubled(2 + j, e);
  }

  lemma DistLast(e: nat, j: nat)
    requires 11 <= e <= 13 && j < 2
    ensures DBase(2 * e + 2 + j) == 1 + Shl(2 + j, e) && DExtra(2 * e + 2 + j) == e
  {
    hide Shl;
    Doubled(2 + j, e);
  }
}

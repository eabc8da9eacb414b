/** What the decoder states of lib/libgz/inflate.c have to do, said on the reference decoder:
    for every state, when it must wait for input, and where it gets to. */
module InflateSteps {
  import opened Bits
  import opened Canonical
  import opened BitIO
  import opened InflateTable
  import opened StaticTables
  import opened Symbols
  import opened Window
  import opened Reference

  // ---------------------------------------------------------------- block headers

  lemma TypeStuck(s: State, rest: seq<bool>)
    requires s.mode.Type?
    ensures Step(s, rest) == Stuck <==> !s.last && |rest| < 3
  {
  }

  lemma AfterLast(fed: seq<bool>, s: State, rest: seq<bool>)
    requires At(fed, s, rest) && s.mode.Type? && s.last
    ensures |rest| % 8 <= |rest| && At(fed, s.(mode := Done), rest[|rest| % 8..])
  {
    AtStep(fed, s, rest, s.(mode := Done), |rest| % 8);
  }

  /** The state after a block header of type `ty`. */
  ghost function Opened(s: State, last: bool, ty: nat): State {
    var s' := s.(last := last);
    if ty == 0 then s'.(mode := Stored)
    else if ty == 1 then s'.(mode := Len, ll := FIXED_LL, dl := FIXED_DL)
    else if ty == 2 then s'.(mode := Table)
    else s'.(mode := Bad)
  }

  lemma AfterType(fed: seq<bool>, s: State, rest: seq<bool>, last: nat, ty: nat)
    requires At(fed, s, rest) && s.mode.Type? && !s.last && 3 <= |rest|
    requires last == ValueOf(rest[..1]) && ty == ValueOf(rest[1..][..2])
    ensures At(fed, Opened(s, last == 1, ty), rest[1..][2..])
  {
    assert rest[1..][..2] == rest[1..3] && rest[1..][2..] == rest[3..];
    OneBit(rest);
    AtStep(fed, s, rest, Opened(s, last == 1, ty), 3);
  }

  lemma OneBit(rest: seq<bool>)
    requires 1 <= |rest|
    ensures ValueOf(rest[..1]) == if rest[0] then 1 else 0
  {
    assert ValueOf(rest[..1][1..]) == 0;
  }

  // ---------------------------------------------------------------- stored blocks

  lemma StoredStuck(s: State, rest: seq<bool>)
    requires s.mode.Stored?
    ensures Step(s, rest) == Stuck <==> |rest| % 8 == 0 && |rest| < 32
  {
  }

  lemma AfterPad(fed: seq<bool>, s: State, rest: seq<bool>, pad: nat)
    requires At(fed, s, rest) && s.mode.Stored? && pad == |rest| % 8
    ensures pad <= |rest| && At(fed, s, rest[pad..])
  {
    if pad != 0 {
      AtStep(fed, s, rest, s, pad);
    } else {
      assert rest[0..] == rest;
    }
  }

  lemma AfterStored(fed: seq<bool>, s: State, rest: seq<bool>, len: nat, nlen: nat)
    requires At(fed, s, rest) && s.mode.Stored? && |rest| % 8 == 0 && 32 <= |rest|
    requires len == ValueOf(rest[..16]) && nlen == ValueOf(rest[16..32])
    ensures len + nlen != 65535 ==> At(fed, s.(mode := Bad), rest)
    ensures len + nlen == 65535 ==> At(fed, s.(mode := Copy(len)), rest[32..])
  {
    assert rest[0..16] == rest[..16] && rest[0..] == rest;
    if len + nlen != 65535 {
      AtStep(fed, s, rest, s.(mode := Bad), 0);
    } else {
      AtStep(fed, s, rest, s.(mode := Copy(len)), 32);
    }
  }

  lemma CopyStuck(s: State, rest: seq<bool>)
    requires s.mode.Copy?
    ensures Step(s, rest) == Stuck <==> s.mode.left != 0 && |rest| < 8
  {
  }

  lemma AfterCopied(fed: seq<bool>, s: State, rest: seq<bool>)
    requires At(fed, s, rest) && s.mode == Copy(0)
    ensures At(fed, s.(mode := Type), rest)
  {
    assert rest[0..] == rest;
    AtStep(fed, s, rest, s.(mode := Type), 0);
  }

  /** Several bytes of a stored block at once. */
  lemma {:induction false} AfterCopy(fed: seq<bool>, s: State, bytes: seq<nat>, tail: seq<bool>)
    requires At(fed, s, ByteBits(bytes) + tail) && s.mode.Copy? && |bytes| <= s.mode.left
    requires forall i :: 0 <= i < |bytes| ==> bytes[i] < 256
    decreases |bytes|
    ensures At(fed, s.(mode := Copy(s.mode.left - |bytes|), out := s.out + bytes), tail)
  {
    hide At, StepType, StepStored, StepTable, StepLenLens, StepCodeLens, StepLen, StepLenExt, StepDist, StepDistExt,
         StepMatch;
    if |bytes| == 0 {
      assert ByteBits(bytes) + tail == tail && s.out + bytes == s.out;
    } else {
      var rest := ByteBits(bytes) + tail;
      var next := ByteBits(bytes[1..]) + tail;
      assert rest == BitsOf(bytes[0], 8) + next;
      assert rest[0..8] == BitsOf(bytes[0], 8) && rest[8..] == next;
      ValueBits(bytes[0], 8);
      Powers();
      LowSmall(bytes[0], 8);
      var s' := s.(mode := Copy(s.mode.left - 1), out := s.out + [bytes[0]]);
      AtStep(fed, s, rest, s', 8);
      AfterCopy(fed, s', bytes[1..], tail);
      assert s.out + [bytes[0]] + bytes[1..] == s.out + bytes;
    }
  }

  // ---------------------------------------------------------------- dynamic headers

  lemma TableStuck(s: State, rest: seq<bool>)
    requires s.mode.Table?
    ensures Step(s, rest) == Stuck <==> |rest| < 14
  {
  }

  lemma AfterTable(fed: seq<bool>, s: State, rest: seq<bool>, a: nat, b: nat, c: nat)
    requires At(fed, s, rest) && s.mode.Table? && 14 <= |rest|
    requires a == ValueOf(rest[..5]) && b == ValueOf(rest[5..][..5]) && c == ValueOf(rest[5..][5..][..4])
    ensures a + 257 > 286 || b + 1 > 30 ==> At(fed, s.(mode := Bad), rest[5..][5..][4..])
    ensures a + 257 <= 286 && b + 1 <= 30 ==>
      At(fed, s.(mode := LenLens(a + 257, b + 1, c + 4, [])), rest[5..][5..][4..])
  {
    assert rest[0..5] == rest[..5] && rest[5..][..5] == rest[5..10] && rest[5..][5..][..4] == rest[10..14];
    assert rest[5..][5..][4..] == rest[14..];
    if a + 257 > 286 || b + 1 > 30 {
      AtStep(fed, s, rest, s.(mode := Bad), 14);
    } else {
      AtStep(fed, s, rest, s.(mode := LenLens(a + 257, b + 1, c + 4, [])), 14);
    }
  }

  lemma LenLensStuck(s: State, rest: seq<bool>)
    requires s.mode.LenLens?
    ensures Step(s, rest) == Stuck <==> |s.mode.got| < s.mode.ncode && |rest| < 3
  {
  }

  lemma AfterLenLen(fed: seq<bool>, s: State, rest: seq<bool>, v: nat)
    requires At(fed, s, rest) && s.mode.LenLens? && |s.mode.got| < s.mode.ncode && 3 <= |rest|
    requires v == ValueOf(rest[..3])
    ensures At(fed, s.(mode := s.mode.(got := s.mode.got + [v])), rest[3..])
  {
    assert rest[0..3] == rest[..3];
    AtStep(fed, s, rest, s.(mode := s.mode.(got := s.mode.got + [v])), 3);
  }

  lemma AfterLenLens(fed: seq<bool>, s: State, rest: seq<bool>)
    requires At(fed, s, rest) && s.mode.LenLens? && s.mode.ncode <= |s.mode.got| <= 19
    ensures var cl := LengthsSent(s.mode.got);
      && (!Usable(CODES, cl) ==> At(fed, s.(mode := Bad), rest))
      && (Usable(CODES, cl) ==> At(fed, s.(mode := CodeLens(s.mode.nlen, s.mode.ndist, cl, [])), rest))
  {
    hide Usable, LengthsSent;
    var cl := LengthsSent(s.mode.got);
    assert rest[0..] == rest;
    if Usable(CODES, cl) {
      AtStep(fed, s, rest, s.(mode := CodeLens(s.mode.nlen, s.mode.ndist, cl, [])), 0);
    } else {
      AtStep(fed, s, rest, s.(mode := Bad), 0);
    }
  }

  /** Where each length of the code length code was sent. */
  const PLACE: seq<nat> := [3, 17, 15, 13, 11, 9, 7, 5, 4, 6, 8, 10, 12, 14, 16, 18, 0, 1, 2]

  lemma OrderPlace(k: nat)
    requires k < 19
    ensures PLACE[k] < 19 && ORDER[PLACE[k]] == k
    ensures ORDER[k] < 19 && PLACE[ORDER[k]] == k
  {
  }

  lemma SentLast(got: seq<nat>, o: nat)
    requires 0 < |got| <= 19 && o == ORDER[|got| - 1]
    ensures o < 19 && LengthsSent(got) == LengthsSent(got[..|got| - 1])[o := got[|got| - 1]]
  {
    OrderPlace(|got| - 1);
  }

  lemma {:induction false} PlacedAt(got: seq<nat>, k: nat, p: nat)
    requires |got| <= 19 && k < 19 && p == PLACE[k]
    ensures LengthsSent(got)[k] == if p < |got| then got[p] else 0
  {
    OrderPlace(k);
    if |got| != 0 {
      PlacedAt(got[..|got| - 1], k, p);
      OrderPlace(|got| - 1);
      var o := ORDER[|got| - 1];
      assert o == k <==> p == |got| - 1;
      SentLast(got, o);
      hide LengthsSent;
    }
  }

  lemma SentAt(got: seq<nat>, lens: seq<nat>, p: nat, k: nat)
    requires |got| <= 19 <= |lens| && p < 19 && ORDER[p] == k < 19
    requires forall i :: 0 <= i < 19 ==> lens[ORDER[i]] == if i < |got| then got[i] else 0
    ensures lens[k] == if p < |got| then got[p] else 0
  {
  }

  lemma PlacedIs(got: seq<nat>, lens: seq<nat>)
    requires |got| <= 19 <= |lens|
    requires forall i :: 0 <= i < 19 ==> lens[ORDER[i]] == if i < |got| then got[i] else 0
    ensures lens[..19] == LengthsSent(got)
  {
    hide LengthsSent;
    forall k | 0 <= k < 19
      ensures lens[k] == LengthsSent(got)[k]
    {
      var p := PLACE[k];
      PlacedAt(got, k, p);
      OrderPlace(k);
      SentAt(got, lens, p, k);
    }
  }

  // ---------------------------------------------------------------- code lengths

  /** The length or run symbol found; a code without words reads as 0. */
  function LengthSymbol(f: Found): nat {
    if f.Symbol? then f.sym else 0
  }

  /** Bits behind a symbol of the code length code, and the shortest run they can mean. */
  function RunBits(v: nat): nat {
    if v < 16 then 0 else if v == 16 then 2 else if v == 17 then 3 else 7
  }

  function RunBase(v: nat): nat {
    if v < 16 then 1 else if v < 18 then 3 else 11
  }

  lemma CodeLensStuck(s: State, rest: seq<bool>)
    requires s.mode.CodeLens?
    ensures var f := SymbolAt(CODES, s.mode.cl, rest);
      Step(s, rest) == Stuck <==>
        |s.mode.lens| < s.mode.nlen + s.mode.ndist
        && (f.Wait? || (|rest| < FoundBits(s.mode.cl, f) + RunBits(LengthSymbol(f)) && 16 <= LengthSymbol(f)))
  {
    hide SymbolAt, FoundBits, Usable;
  }

  /** The state after `n` lengths `v`. */
  ghost function Lengthened(s: State, v: nat, n: nat): State
    requires s.mode.CodeLens?
  {
    if |s.mode.lens| + n > s.mode.nlen + s.mode.ndist then s.(mode := Bad)
    else s.(mode := s.mode.(lens := s.mode.lens + Repeat(v, n)))
  }

  lemma AfterCodeLen(fed: seq<bool>, s: State, rest: seq<bool>, f: Found)
    requires At(fed, s, rest) && s.mode.CodeLens? && |s.mode.lens| < s.mode.nlen + s.mode.ndist
    requires f == SymbolAt(CODES, s.mode.cl, rest) != Wait && LengthSymbol(f) < 16
    ensures var n := FoundBits(s.mode.cl, f);
      n <= |rest| && At(fed, Lengthened(s, LengthSymbol(f), 1), rest[n..])
  {
    hide SymbolAt, FoundBits, Usable;
    AtStep(fed, s, rest, Lengthened(s, LengthSymbol(f), 1), FoundBits(s.mode.cl, f));
  }

  lemma AfterRun(fed: seq<bool>, s: State, rest: seq<bool>, f: Found, x: nat)
    requires At(fed, s, rest) && s.mode.CodeLens? && |s.mode.lens| < s.mode.nlen + s.mode.ndist
    requires f == SymbolAt(CODES, s.mode.cl, rest) != Wait && 16 <= LengthSymbol(f)
    requires var n, k := FoundBits(s.mode.cl, f), RunBits(LengthSymbol(f));
      n + k <= |rest| && x == ValueOf(rest[n..][..k])
    ensures var n, v := FoundBits(s.mode.cl, f), LengthSymbol(f);
      if v == 16 && |s.mode.lens| == 0 then At(fed, s.(mode := Bad), rest[n..])
      else At(fed, Lengthened(s, if v == 16 then s.mode.lens[|s.mode.lens| - 1] else 0, RunBase(v) + x),
        rest[n..][RunBits(v)..])
  {
    hide SymbolAt, FoundBits, Usable;
    var n, v := FoundBits(s.mode.cl, f), LengthSymbol(f);
    assert rest[n..][..RunBits(v)] == rest[n..n + RunBits(v)] && rest[n..][RunBits(v)..] == rest[n + RunBits(v)..];
    if v == 16 && |s.mode.lens| == 0 {
      AtStep(fed, s, rest, s.(mode := Bad), n);
    } else {
      AtStep(fed, s, rest, Lengthened(s, if v == 16 then s.mode.lens[|s.mode.lens| - 1] else 0, RunBase(v) + x),
        n + RunBits(v));
    }
  }

  /** All lengths are there: the two codes, if both can be used. */
  lemma AfterCodeLens(fed: seq<bool>, s: State, rest: seq<bool>)
    requires At(fed, s, rest) && s.mode.CodeLens? && |s.mode.lens| == s.mode.nlen + s.mode.ndist && 257 <= s.mode.nlen
    ensures var lens, nlen := s.mode.lens, s.mode.nlen;
      if lens[256] == 0 || !Usable(LENS, lens[..nlen]) || !Usable(DISTS, lens[nlen..])
      then At(fed, s.(mode := Bad), rest)
      else At(fed, s.(mode := Len, ll := lens[..nlen], dl := lens[nlen..]), rest)
  {
    hide Usable;
    var lens, nlen := s.mode.lens, s.mode.nlen;
    assert rest[0..] == rest;
    if lens[256] == 0 || !Usable(LENS, lens[..nlen]) || !Usable(DISTS, lens[nlen..]) {
      AtStep(fed, s, rest, s.(mode := Bad), 0);
    } else {
      AtStep(fed, s, rest, s.(mode := Len, ll := lens[..nlen], dl := lens[nlen..]), 0);
    }
  }

  // ---------------------------------------------------------------- symbols

  lemma LenStuck(s: State, rest: seq<bool>)
    requires s.mode.Len?
    ensures Step(s, rest) == Stuck <==> SymbolAt(LENS, s.ll, rest) == Wait
  {
    hide SymbolAt;
  }

  /** The bits of a table entry's operation that the decoder tests. */
  predicate Has16(op: nat) { op / 16 % 2 == 1 }
  predicate Has32(op: nat) { op / 32 % 2 == 1 }
  predicate Has64(op: nat) { op / 64 % 2 == 1 }

  /** What the LEN state makes of a table entry. */
  function LenMode(here: Code): Mode {
    if here.op == 0 then Lit(here.val)
    else if Has32(here.op) then Type
    else if Has64(here.op) then Bad
    else LenExt(here.val, here.op % 16)
  }

  function DistMode(here: Code, length: nat): Mode {
    if Has64(here.op) then Bad else DistExt(length, here.val, here.op % 16)
  }

  lemma InvalidEntry()
    ensures LenMode(Code(INVALID_OP, 1, 0)) == LenMode(Code(INVALID_OP, 0, 0)) == Bad
    ensures !Has16(INVALID_OP) && !Has32(INVALID_OP) && Has64(INVALID_OP)
  {
  }

  /** Base and number of extra bits of some length code. */
  ghost predicate LenCode(length: nat, extra: nat) {
    extra <= 5 && 3 <= length && length + Pow2(extra) <= 259
  }

  lemma LenCodeOf(c: nat)
    requires c < 29
    ensures LenCode(LBASE[c], EXTRA_LBITS[c])
  {
    LengthExtraAgrees(c);
    if c < 28 {
      LengthStep(c);
      assert LengthSize(c) == Pow2(EXTRA_LBITS[c]) && LengthBase(c) == LBASE[c] - 3;
      assert 3 <= LBASE[c];
      hide Shl, LengthSize, LengthBase;
    } else {
      Powers();
    }
  }

  /** The entry of symbol `sym` says what the symbol means. */
  lemma LenEntry(sym: nat)
    requires sym < 288
    ensures var here := SymbolEntry(LENS, sym, 0);
      && LenMode(here) == (
        if sym < 256 then Lit(sym)
        else if sym == 256 then Type
        else if sym >= 286 then Bad
        else LenExt(LBASE[sym - 257], LEXT[sym - 257] % 16))
      && (LenMode(here).LenExt? ==> LenCode(LBASE[sym - 257], LEXT[sym - 257] % 16))
      && (Has16(here.op) <==> LenMode(here).LenExt?)
      && (Has32(here.op) ==> Has64(here.op))
  {
    hide LenCode;
    if 257 <= sym < 286 {
      LengthOp(sym - 257);
    } else if sym >= 286 {
      BadLengthOp(sym - 257);
    }
  }

  lemma LengthOp(c: nat)
    requires c < 29
    ensures var op := LEXT[c]; op != 0 && Has16(op) && !Has32(op) && !Has64(op) && LenCode(LBASE[c], op % 16)
  {
    LenCodeOf(c);
    LengthExtraAgrees(c);
    hide LenCode;
  }

  lemma BadLengthOp(c: nat)
    requires 29 <= c < 31
    ensures var op := LEXT[c]; op != 0 && !Has16(op) && !Has32(op) && Has64(op)
  {
  }

  lemma AfterLen(fed: seq<bool>, s: State, rest: seq<bool>, f: Found, here: Code)
    requires At(fed, s, rest) && s.mode.Len? && f == SymbolAt(LENS, s.ll, rest) != Wait
    requires f.Symbol? ==> f.sym < 288 && here.(bits := 0) == SymbolEntry(LENS, f.sym, 0)
    requires f.Invalid? ==> here == Code(INVALID_OP, 1, 0)
    ensures var n := FoundBits(s.ll, f); n <= |rest| && At(fed, s.(mode := LenMode(here)), rest[n..])
    ensures LenMode(here).LenExt? ==> LenCode(here.val, here.op % 16)
    ensures LenMode(here).Lit? ==> here.val < 256
    ensures Has16(here.op) <==> LenMode(here).LenExt?
    ensures Has32(here.op) ==> Has64(here.op)
  {
    if f.Symbol? {
      LenEntry(f.sym);
    }
    assert LenMode(here) == LenMode(here.(bits := 0));
    InvalidEntry();
    hide LenMode, LenCode, Has16, Has32, Has64, At, StepType, StepStored, StepCopy, StepTable, StepLenLens,
         StepCodeLens, StepLenExt, StepDist, StepDistExt, StepMatch, SymbolAt, SymbolEntry;
    AtStep(fed, s, rest, s.(mode := LenMode(here)), FoundBits(s.ll, f));
  }

  lemma LenExtStuck(s: State, rest: seq<bool>)
    requires s.mode.LenExt?
    ensures Step(s, rest) == Stuck <==> |rest| < s.mode.extra
  {
  }

  lemma AfterLenExt(fed: seq<bool>, s: State, rest: seq<bool>, x: nat)
    requires At(fed, s, rest) && s.mode.LenExt? && s.mode.extra <= |rest| && x == ValueOf(rest[..s.mode.extra])
    ensures At(fed, s.(mode := Dist(s.mode.length + x)), rest[s.mode.extra..])
  {
    hide At, StepType, StepStored, StepCopy, StepTable, StepLenLens, StepCodeLens, StepLen, StepDist, StepDistExt,
         StepMatch;
    assert rest[0..s.mode.extra] == rest[..s.mode.extra];
    AtStep(fed, s, rest, s.(mode := Dist(s.mode.length + x)), s.mode.extra);
  }

  lemma DistStuck(s: State, rest: seq<bool>)
    requires s.mode.Dist?
    ensures Step(s, rest) == Stuck <==> SymbolAt(DISTS, s.dl, rest) == Wait
  {
    hide SymbolAt;
  }

  /** Base and number of extra bits of some distance code. */
  ghost predicate DistCode(dist: nat, extra: nat) {
    extra <= 13 && 1 <= dist && dist + Pow2(extra) <= 32769
  }

  lemma DistCodeOf(sym: nat)
    requires sym < 30
    ensures DistCode(DBASE[sym], EXTRA_DBITS[sym])
  {
    DistExtraAgrees(sym);
    DistStep(sym);
    assert DistSize(sym) == Pow2(EXTRA_DBITS[sym]) && DistBase(sym) == DBASE[sym] - 1;
    hide Shl, DistSize, DistBase;
  }

  lemma DistEntry(sym: nat)
    requires sym < 32
    ensures var here := SymbolEntry(DISTS, sym, 0);
      if sym < 30 then
        here.val == DBASE[sym] && here.op == DEXT[sym] && DistCode(here.val, here.op % 16) && Has16(here.op)
          && !Has64(here.op)
      else !Has16(here.op) && Has64(here.op)
  {
    hide DistCode;
    if sym < 30 {
      DistExtraAgrees(sym);
      DistCodeOf(sym);
    }
  }

  lemma AfterDist(fed: seq<bool>, s: State, rest: seq<bool>, f: Found, here: Code)
    requires At(fed, s, rest) && s.mode.Dist? && f == SymbolAt(DISTS, s.dl, rest) != Wait
    requires f.Symbol? ==> f.sym < 32 && here.(bits := 0) == SymbolEntry(DISTS, f.sym, 0)
    requires f.Invalid? ==> here == Code(INVALID_OP, 1, 0)
    ensures var n := FoundBits(s.dl, f); n <= |rest| && At(fed, s.(mode := DistMode(here, s.mode.length)), rest[n..])
    ensures DistMode(here, s.mode.length).DistExt? ==> DistCode(here.val, here.op % 16)
    ensures Has16(here.op) <==> DistMode(here, s.mode.length).DistExt?
  {
    if f.Symbol? {
      DistEntry(f.sym);
    }
    InvalidEntry();
    hide Has16, Has64, At, StepType, StepStored, StepCopy, StepTable, StepLenLens, StepCodeLens, StepLen, StepLenExt,
         StepDistExt, StepMatch, SymbolAt, SymbolEntry, DistCode;
    AtStep(fed, s, rest, s.(mode := DistMode(here, s.mode.length)), FoundBits(s.dl, f));
  }

  lemma DistExtStuck(s: State, rest: seq<bool>)
    requires s.mode.DistExt?
    ensures Step(s, rest) == Stuck <==> |rest| < s.mode.extra
  {
  }

  lemma AfterDistExt(fed: seq<bool>, s: State, rest: seq<bool>, x: nat)
    requires At(fed, s, rest) && s.mode.DistExt? && s.mode.extra <= |rest| && x == ValueOf(rest[..s.mode.extra])
    ensures At(fed, s.(mode := Match(s.mode.length, s.mode.dist + x)), rest[s.mode.extra..])
  {
    hide At, StepType, StepStored, StepCopy, StepTable, StepLenLens, StepCodeLens, StepLen, StepLenExt, StepDist,
         StepMatch;
    assert rest[0..s.mode.extra] == rest[..s.mode.extra];
    AtStep(fed, s, rest, s.(mode := Match(s.mode.length, s.mode.dist + x)), s.mode.extra);
  }

  // ---------------------------------------------------------------- output

  lemma AfterLit(fed: seq<bool>, s: State, rest: seq<bool>)
    requires At(fed, s, rest) && s.mode.Lit?
    ensures At(fed, s.(mode := Len, out := s.out + [s.mode.byte]), rest)
  {
    assert rest[0..] == rest;
    AtStep(fed, s, rest, s.(mode := Len, out := s.out + [s.mode.byte]), 0);
  }

  lemma AfterBadMatch(fed: seq<bool>, s: State, rest: seq<bool>)
    requires At(fed, s, rest) && BadMatch(s) && s.mode.length != 0
    ensures At(fed, s.(mode := Bad), rest)
  {
    assert rest[0..] == rest;
    AtStep(fed, s, rest, s.(mode := Bad), 0);
  }

  /** Where `n` bytes of a match lead. */
  ghost function MatchLeft(length: nat, dist: nat, n: nat): Mode
    requires n <= length
  {
    if n == length then Len else Match(length - n, dist)
  }

  /** Several bytes of a match at once. */
  lemma {:induction false} AfterMatch(fed: seq<bool>, s: State, rest: seq<bool>, n: nat)
    requires At(fed, s, rest) && s.mode.Match? && !BadMatch(s) && 1 <= n <= s.mode.length
    ensures At(fed, s.(mode := MatchLeft(s.mode.length, s.mode.dist, n), out := Matched(s.out, s.mode.dist, n)), rest)
  {
    hide At, StepType, StepStored, StepCopy, StepTable, StepLenLens, StepCodeLens, StepLen, StepLenExt, StepDist,
         StepDistExt;
    var Match(length, dist) := s.mode;
    assert rest[0..] == rest;
    var s0 := s;
    if n > 1 {
      AfterMatch(fed, s, rest, n - 1);
      s0 := s.(mode := MatchLeft(length, dist, n - 1), out := Matched(s.out, dist, n - 1));
    } else {
      MatchedNone(s.out, dist);
    }
    AtStep(fed, s0, rest, s0.(mode := MatchLeft(length, dist, n), out := s0.out + [s0.out[|s0.out| - dist]]), 0);
  }

  // ---------------------------------------------------------------- the fixed codes

  lemma KraftPush(lens: seq<nat>, v: nat)
    requires ValidLengths(lens) && 1 <= v <= MAXBITS
    ensures ValidLengths(lens + [v]) && Kraft(lens + [v], MAXBITS) == Kraft(lens, MAXBITS) + Shl(1, MAXBITS - v)
  {
    assert (lens + [v])[..|lens|] == lens;
  }

  lemma RepeatMore(v: nat, n: nat)
    ensures Repeat(v, 0) == [] && Repeat(v, n + 1) == Repeat(v, n) + [v]
  {
  }

  lemma {:induction false} KraftRepeat(lens: seq<nat>, v: nat, n: nat)
    requires ValidLengths(lens) && 1 <= v <= MAXBITS
    ensures ValidLengths(lens + Repeat(v, n))
    ensures Kraft(lens + Repeat(v, n), MAXBITS) == Kraft(lens, MAXBITS) + Shl(n, MAXBITS - v)
  {
    hide Shl, Kraft, Repeat, ValidLengths;
    if n == 0 {
      RepeatMore(v, n);
      assert lens + [] == lens;
      ShlZero(MAXBITS - v);
    } else {
      KraftRepeat(lens, v, n - 1);
      ShlAdd(n - 1, 1, MAXBITS - v);
      RepeatMore(v, n - 1);
      KraftPush(lens + Repeat(v, n - 1), v);
      assert lens + Repeat(v, n) == lens + Repeat(v, n - 1) + [v];
    }
  }

  lemma FixedWeights()
    ensures Shl(144, 7) == 18432 && Shl(112, 6) == 7168 && Shl(24, 8) == 6144 && Shl(8, 7) == 1024
    ensures Shl(32, 10) == 32768
    ensures Pow2(MAXBITS) == 32768
  {
    assert Shl(1, 15) == 32768;
  }

  /** The fixed codes are complete. */
  lemma FixedComplete()
    ensures CompleteCode(FIXED_LL) && |FIXED_LL| == 288 && (forall i :: 0 <= i < 288 ==> 7 <= FIXED_LL[i] <= 9)
    ensures CompleteCode(FIXED_DL) && |FIXED_DL| == 32 && (forall i :: 0 <= i < 32 ==> FIXED_DL[i] == 5)
  {
    FixedWeights();
    hide Shl, Kraft;
    KraftEmpty();
    var a := Repeat(8, 144);
    assert [] + a == a;
    KraftRepeat([], 8, 144);
    KraftRepeat(a, 9, 112);
    KraftRepeat(a + Repeat(9, 112), 7, 24);
    KraftRepeat(a + Repeat(9, 112) + Repeat(7, 24), 8, 8);
    assert [] + FIXED_DL == FIXED_DL;
    KraftRepeat([], 5, 32);
  }

  lemma KraftEmpty()
    ensures ValidLengths([]) && Kraft([], MAXBITS) == 0
  {
  }

  // ---------------------------------------------------------------- lengths in their places

  /** The lengths `got` stand where they belong. */
  ghost predicate Sent(lens: seq<nat>, got: seq<nat>) {
    |got| <= 19 <= |lens| && forall i :: 0 <= i < |got| ==> lens[ORDER[i]] == got[i] && got[i] < 8
  }

  lemma SentMore(lens: seq<nat>, got: seq<nat>, v: nat)
    requires Sent(lens, got) && |got| < 19 && v < 8
    ensures ORDER[|got|] < |lens| && Sent(lens[ORDER[|got|] := v], got + [v])
  {
    var o := ORDER[|got|];
    OrderPlace(|got|);
    forall i | 0 <= i < |got|
      ensures ORDER[i] != o
    {
      OrderPlace(i);
    }
  }

  lemma SentAll(lens: seq<nat>, got: seq<nat>, n: nat)
    requires Sent(lens, got + Repeat(0, n)) && |got| + n == 19
    ensures lens[..19] == LengthsSent(got) && forall i :: 0 <= i < 19 ==> lens[i] < 8
  {
    hide LengthsSent;
    var all := got + Repeat(0, n);
    forall i | 0 <= i < 19
      ensures lens[ORDER[i]] == if i < |got| then got[i] else 0
    {
      assert lens[ORDER[i]] == all[i];
    }
    PlacedIs(got, lens);
    forall k | 0 <= k < 19
      ensures lens[k] < 8
    {
      OrderPlace(k);
      var p := PLACE[k];
      assert lens[ORDER[p]] == all[p];
    }
  }

  lemma ValidMore(lens: seq<nat>, v: nat, n: nat)
    requires ValidLengths(lens) && v < 16
    ensures ValidLengths(lens + Repeat(v, n))
  {
  }

  /** The two halves of an accumulator of 32 bits. */
  lemma StoredFields(r: BitReader)
    requires r.Valid() && r.bits == 32
    ensures 32 <= |r.Rest()| && Shr(r.hold, 16) < 65536 && Low(r.hold, 16) == ValueOf(r.Rest()[..16])
    ensures Shr(r.hold, 16) == ValueOf(r.Rest()[16..32])
  {
    var hold := r.hold;
    r.PeekIsPrefix(32);
    r.PeekIsPrefix(16);
    hide BitsOf, ValueOf, Shl, Low, Shr;
    BitsSplit(hold, 16, 16);
    assert r.Rest()[16..32] == r.Rest()[..32][16..] == BitsOf(Shr(hold, 16), 16);
    ValueBits(Shr(hold, 16), 16);
    ShrBound(hold, 16, 16);
    Powers();
    LowSmall(Shr(hold, 16), 16);
  }
}

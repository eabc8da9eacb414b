/** Block data: `compress_block` of lib/libgz/trees.c, and its decoding by the LEN, LENEXT,
    DIST, DISTEXT, MATCH and LIT states of lib/libgz/inflate.c (section 3.2.5 of RFC 1951). */
module Blocks {
  import opened Common
  import opened Bits
  import opened Canonical
  import opened BitIO
  import opened InflateTable
  import opened StaticTables
  import opened Symbols
  import opened Window
  import opened Reference
  import opened InflateSteps
  import opened CodeLengths

  const LITERALS: nat := 256
  const END_BLOCK: nat := 256
  const MIN_MATCH: nat := 3

  /** One entry of `d_buf` and `l_buf`: a literal byte `lc` when `dist` is 0, else a match of
      length `lc + MIN_MATCH`. */
  datatype Token = Token(dist: nat, lc: nat)

  /** The tables of `tr_static_init`. */
  datatype Static = Static(lengthCode: seq<nat>, baseLength: seq<nat>, distCode: seq<nat>, baseDist: seq<nat>)

  ghost predicate GoodStatic(t: Static) {
    LengthTables(t.lengthCode, t.baseLength) && DistTables(t.distCode, t.baseDist)
  }

  ghost predicate GoodToken(k: Token) {
    k.lc < 256 && k.dist <= 32768
  }

  function LenSym(t: Static, k: Token): nat
    requires |t.lengthCode| == 256 && k.lc < 256
  {
    t.lengthCode[k.lc] + LITERALS + 1
  }

  function DistSym(t: Static, k: Token): nat
    requires |t.distCode| == 512 && 1 <= k.dist <= 32768
  {
    DCode(t.distCode, k.dist - 1)
  }

  /** The symbols of a token have codes. */
  ghost predicate Coded(t: Static, ll: seq<nat>, dl: seq<nat>, k: Token)
    requires GoodStatic(t) && GoodToken(k)
  {
    if k.dist == 0 then k.lc < |ll| && ll[k.lc] != 0
    else LenSym(t, k) < |ll| && ll[LenSym(t, k)] != 0 && DistSym(t, k) < |dl| && dl[DistSym(t, k)] != 0
  }

  ghost predicate AllCoded(t: Static, ll: seq<nat>, dl: seq<nat>, ks: seq<Token>) {
    && GoodStatic(t) && END_BLOCK < |ll| && ll[END_BLOCK] != 0
    && forall i :: 0 <= i < |ks| ==> GoodToken(ks[i]) && Coded(t, ll, dl, ks[i])
  }

  // ---------------------------------------------------------------- bits of a token

  ghost function LengthBits(t: Static, ll: seq<nat>, k: Token): seq<bool>
    requires GoodStatic(t) && GoodToken(k) && LenSym(t, k) < |ll|
  {
    var c := t.lengthCode[k.lc];
    LengthFacts(t, k);
    CodeBits(ll, LenSym(t, k)) + BitsOf(Extra(k.lc, t.baseLength[c], EXTRA_LBITS[c]), EXTRA_LBITS[c])
  }

  ghost function DistBits(t: Static, dl: seq<nat>, k: Token): seq<bool>
    requires GoodStatic(t) && GoodToken(k) && k.dist != 0 && DistSym(t, k) < |dl|
  {
    var c := DistSym(t, k);
    DistFacts(t, k);
    CodeBits(dl, c) + BitsOf(Extra(k.dist - 1, t.baseDist[c], EXTRA_DBITS[c]), EXTRA_DBITS[c])
  }

  ghost function TokenBits(t: Static, ll: seq<nat>, dl: seq<nat>, k: Token): seq<bool>
    requires GoodStatic(t) && GoodToken(k) && Coded(t, ll, dl, k)
  {
    if k.dist == 0 then CodeBits(ll, k.lc) else LengthBits(t, ll, k) + DistBits(t, dl, k)
  }

  lemma LengthFacts(t: Static, k: Token)
    requires GoodStatic(t) && GoodToken(k)
    ensures var c := t.lengthCode[k.lc];
      c < 29 && EXTRA_LBITS[c] <= 5 && 0 <= Extra(k.lc, t.baseLength[c], EXTRA_LBITS[c]) < Pow2(EXTRA_LBITS[c])
      && LBASE[c] + Extra(k.lc, t.baseLength[c], EXTRA_LBITS[c]) == k.lc + MIN_MATCH && LEXT[c] == 16 + EXTRA_LBITS[c]
  {
    assert LengthAgrees(t.lengthCode, t.baseLength, k.lc);
    LengthExtraAgrees(t.lengthCode[k.lc]);
  }

  lemma DistFacts(t: Static, k: Token)
    requires GoodStatic(t) && GoodToken(k) && k.dist != 0
    ensures var c := DistSym(t, k);
      c < 30 && EXTRA_DBITS[c] <= 13 && 0 <= Extra(k.dist - 1, t.baseDist[c], EXTRA_DBITS[c]) < Pow2(EXTRA_DBITS[c])
      && DBASE[c] + Extra(k.dist - 1, t.baseDist[c], EXTRA_DBITS[c]) == k.dist && DEXT[c] == 16 + EXTRA_DBITS[c]
  {
    assert DistAgrees(t.distCode, t.baseDist, k.dist - 1);
    DistExtraAgrees(DistSym(t, k));
  }

  /** The bits of the first `n` tokens. */
  ghost function TokensBits(t: Static, ll: seq<nat>, dl: seq<nat>, ks: seq<Token>, n: nat): seq<bool>
    requires AllCoded(t, ll, dl, ks) && n <= |ks|
  {
    if n == 0 then [] else TokensBits(t, ll, dl, ks, n - 1) + TokenBits(t, ll, dl, ks[n - 1])
  }

  ghost function BlockBits(t: Static, ll: seq<nat>, dl: seq<nat>, ks: seq<Token>): seq<bool>
    requires AllCoded(t, ll, dl, ks)
  {
    TokensBits(t, ll, dl, ks, |ks|) + CodeBits(ll, END_BLOCK)
  }

  // ---------------------------------------------------------------- compress_block

  /** The trees have entries for the symbols of a token. */
  ghost predicate InTrees(t: Static, lcodes: seq<nat>, dcodes: seq<nat>, k: Token)
    requires GoodStatic(t) && GoodToken(k)
  {
    if k.dist == 0 then k.lc < |lcodes| else LenSym(t, k) < |lcodes| && DistSym(t, k) < |dcodes|
  }

  /** A code and its extra bits, if it has any. */
  method SendWithExtra(w: BitWriter, n: nat, codes: seq<nat>, lens: seq<nat>, x: nat, base: nat, extra: nat)
    requires w.Valid() && Tree(codes, lens) && n < |codes| && lens[n] != 0 && extra <= 13
    requires 0 <= Extra(x, base, extra) < Pow2(extra)
    modifies w
    ensures w.Valid() && w.Stream() == old(w.Stream()) + (CodeBits(lens, n) + BitsOf(Extra(x, base, extra), extra))
  {
    hide CodeBits, BitsOf, ByteBits, Tree, Shl;
    SendCode(w, n, codes, lens);
    if extra != 0 {
      w.SendBits(x - base, extra);
    } else {
      NoBits(0);
    }
  }

  method SendLength(w: BitWriter, t: Static, lcodes: seq<nat>, ll: seq<nat>, k: Token)
    requires w.Valid() && GoodStatic(t) && GoodToken(k) && Tree(lcodes, ll) && LenSym(t, k) < |lcodes|
    requires ll[LenSym(t, k)] != 0
    modifies w
    ensures w.Valid() && w.Stream() == old(w.Stream()) + LengthBits(t, ll, k)
  {
    hide CodeBits, BitsOf, ByteBits, GoodStatic, Shl;
    TableSizes(t);
    LengthFacts(t, k);
    var code := t.lengthCode[k.lc];
    SendWithExtra(w, code + LITERALS + 1, lcodes, ll, k.lc, t.baseLength[code], EXTRA_LBITS[code]);
  }

  method SendDist(w: BitWriter, t: Static, dcodes: seq<nat>, dl: seq<nat>, k: Token)
    requires w.Valid() && GoodStatic(t) && GoodToken(k) && k.dist != 0
    requires Tree(dcodes, dl) && DistSym(t, k) < |dcodes| && dl[DistSym(t, k)] != 0
    modifies w
    ensures w.Valid() && w.Stream() == old(w.Stream()) + DistBits(t, dl, k)
  {
    hide CodeBits, BitsOf, ByteBits, GoodStatic, Shl;
    TableSizes(t);
    DistFacts(t, k);
    var dist := k.dist - 1;
    var code := DCode(t.distCode, dist);
    SendWithExtra(w, code, dcodes, dl, dist, t.baseDist[code], EXTRA_DBITS[code]);
  }

  method SendToken(w: BitWriter, t: Static, lcodes: seq<nat>, ll: seq<nat>, dcodes: seq<nat>, dl: seq<nat>, k: Token)
    requires w.Valid() && GoodStatic(t) && GoodToken(k) && Coded(t, ll, dl, k)
    requires Tree(lcodes, ll) && Tree(dcodes, dl) && InTrees(t, lcodes, dcodes, k)
    modifies w
    ensures w.Valid() && w.Stream() == old(w.Stream()) + TokenBits(t, ll, dl, k)
  {
    hide CodeBits, BitsOf, ByteBits, GoodStatic, Shl, LengthBits, DistBits;
    if k.dist == 0 {
      SendCode(w, k.lc, lcodes, ll);
    } else {
      SendLength(w, t, lcodes, ll, k);
      SendDist(w, t, dcodes, dl, k);
    }
  }

  /** `compress_block`: all tokens, then the end-of-block code. */
  method CompressBlock(w: BitWriter, t: Static, lcodes: seq<nat>, ll: seq<nat>, dcodes: seq<nat>, dl: seq<nat>,
                       ks: seq<Token>)
    requires w.Valid() && AllCoded(t, ll, dl, ks) && Tree(lcodes, ll) && Tree(dcodes, dl) && END_BLOCK < |lcodes|
    requires forall i :: 0 <= i < |ks| ==> InTrees(t, lcodes, dcodes, ks[i])
    modifies w
    ensures w.Valid() && w.Stream() == old(w.Stream()) + BlockBits(t, ll, dl, ks)
  {
    hide CodeBits, BitsOf, ByteBits, GoodStatic, Shl, TokenBits, Coded, InTrees, Tree, GoodToken;
    ghost var start := w.Stream();
    for lx := 0 to |ks|
      invariant w.Valid() && w.Stream() == start + TokensBits(t, ll, dl, ks, lx)
    {
      SendToken(w, t, lcodes, ll, dcodes, dl, ks[lx]);
      assert w.Stream() == start + (TokensBits(t, ll, dl, ks, lx) + TokenBits(t, ll, dl, ks[lx]));
    }
    SendCode(w, END_BLOCK, lcodes, ll);
  }

  lemma TableSizes(t: Static)
    requires GoodStatic(t)
    ensures |t.lengthCode| == 256 && |t.baseLength| == 29 && |t.distCode| == 512 && |t.baseDist| == 30
  {
  }

  // ---------------------------------------------------------------- and back

  /** The output after a token: the byte, or the bytes `dist` back. */
  ghost function Emit(out: seq<nat>, k: Token): seq<nat> {
    if k.dist == 0 then out + [k.lc]
    else if k.dist <= |out| then Matched(out, k.dist, k.lc + MIN_MATCH)
    else out
  }

  ghost function Expand(out: seq<nat>, ks: seq<Token>, n: nat): seq<nat>
    requires n <= |ks|
  {
    if n == 0 then out else Emit(Expand(out, ks, n - 1), ks[n - 1])
  }

  /** No match reaches back before the start of the output. */
  ghost predicate InReach(out: seq<nat>, ks: seq<Token>) {
    forall i :: 0 <= i < |ks| ==> ks[i].dist <= |Expand(out, ks, i)|
  }

  /** A literal/length symbol at the front. */
  lemma LengthSymbolDecodes(fed: seq<bool>, s: State, sym: nat, tail: seq<bool>)
    requires s.mode.Len? && Usable(LENS, s.ll) && sym < |s.ll| && s.ll[sym] != 0
    requires At(fed, s, CodeBits(s.ll, sym) + tail)
    ensures sym < 256 ==> At(fed, s.(mode := Lit(sym)), tail)
    ensures sym == 256 ==> At(fed, s.(mode := Type), tail)
    ensures 256 < sym < 286 ==> At(fed, s.(mode := LenExt(LBASE[sym - 257], LEXT[sym - 257] % 16)), tail)
  {
    assert sym < 288;
    CodeFound(LENS, s.ll, sym, tail);
    hide At, SymbolAt, Usable, CodeBits, LenMode, SymbolEntry, FoundBits;
    var rest := CodeBits(s.ll, sym) + tail;
    AfterLen(fed, s, rest, Symbol(sym), SymbolEntry(LENS, sym, 0));
    EntryNoBits(LENS, sym);
    LenEntry(sym);
    assert rest[s.ll[sym]..] == tail;
  }

  lemma EntryNoBits(ty: CodeType, sym: nat)
    requires sym < SymbolLimit(ty)
    ensures SymbolEntry(ty, sym, 0).(bits := 0) == SymbolEntry(ty, sym, 0)
  {
  }

  lemma DistSymbolDecodes(fed: seq<bool>, s: State, sym: nat, tail: seq<bool>)
    requires s.mode.Dist? && Usable(DISTS, s.dl) && sym < |s.dl| && s.dl[sym] != 0
    requires At(fed, s, CodeBits(s.dl, sym) + tail)
    ensures sym < 30 ==> At(fed, s.(mode := DistExt(s.mode.length, DBASE[sym], DEXT[sym] % 16)), tail)
  {
    assert sym < 32;
    CodeFound(DISTS, s.dl, sym, tail);
    hide At, SymbolAt, Usable, CodeBits, SymbolEntry, FoundBits, DistCode, Has16, Has64;
    var rest := CodeBits(s.dl, sym) + tail;
    AfterDist(fed, s, rest, Symbol(sym), SymbolEntry(DISTS, sym, 0));
    EntryNoBits(DISTS, sym);
    DistEntry(sym);
    assert rest[s.dl[sym]..] == tail;
  }

  /** Extra bits at the front. */
  lemma ExtraFront(x: nat, n: nat, tail: seq<bool>)
    requires x < Pow2(n)
    ensures var rest := BitsOf(x, n) + tail; n <= |rest| && ValueOf(rest[..n]) == x && rest[n..] == tail
  {
    hide BitsOf, ValueOf, Shl;
    ValueBits(x, n);
    LowSmall(x, n);
    assert (BitsOf(x, n) + tail)[..n] == BitsOf(x, n);
  }

  lemma LengthDecodes(fed: seq<bool>, s: State, t: Static, k: Token, tail: seq<bool>)
    requires s.mode.Len? && Usable(LENS, s.ll) && GoodStatic(t) && GoodToken(k) && LenSym(t, k) < |s.ll|
    requires s.ll[LenSym(t, k)] != 0
    requires At(fed, s, LengthBits(t, s.ll, k) + tail)
    ensures At(fed, s.(mode := Dist(k.lc + MIN_MATCH)), tail)
  {
    hide At, Usable, CodeBits, BitsOf, ValueOf, Shl, GoodStatic, LengthBits;
    TableSizes(t);
    var base, n, x := LengthParts(t, s.ll, k);
    var word := CodeBits(s.ll, LenSym(t, k));
    Group3(word, BitsOf(x, n), tail);
    LengthSymbolDecodes(fed, s, LenSym(t, k), BitsOf(x, n) + tail);
    ExtraFront(x, n, tail);
    AfterLenExt(fed, s.(mode := LenExt(base, n)), BitsOf(x, n) + tail, x);
  }

  lemma LengthParts(t: Static, ll: seq<nat>, k: Token) returns (base: nat, n: nat, x: nat)
    requires GoodStatic(t) && GoodToken(k) && LenSym(t, k) < |ll|
    ensures 257 <= LenSym(t, k) < 286 && base == LBASE[LenSym(t, k) - 257] && n == LEXT[LenSym(t, k) - 257] % 16
    ensures LengthBits(t, ll, k) == CodeBits(ll, LenSym(t, k)) + BitsOf(x, n) && x < Pow2(n)
    ensures base + x == k.lc + MIN_MATCH
  {
    hide CodeBits, BitsOf, GoodStatic, Shl;
    TableSizes(t);
    LengthFacts(t, k);
    var c := t.lengthCode[k.lc];
    base, n, x := LBASE[c], EXTRA_LBITS[c], Extra(k.lc, t.baseLength[c], EXTRA_LBITS[c]);
  }

  lemma DistParts(t: Static, dl: seq<nat>, k: Token) returns (base: nat, n: nat, x: nat)
    requires GoodStatic(t) && GoodToken(k) && k.dist != 0 && DistSym(t, k) < |dl|
    ensures DistSym(t, k) < 30 && base == DBASE[DistSym(t, k)] && n == DEXT[DistSym(t, k)] % 16
    ensures DistBits(t, dl, k) == CodeBits(dl, DistSym(t, k)) + BitsOf(x, n) && x < Pow2(n) && base + x == k.dist
  {
    hide CodeBits, BitsOf, GoodStatic, Shl;
    TableSizes(t);
    DistFacts(t, k);
    var c := DistSym(t, k);
    base, n, x := DBASE[c], EXTRA_DBITS[c], Extra(k.dist - 1, t.baseDist[c], EXTRA_DBITS[c]);
  }

  lemma DistDecodes(fed: seq<bool>, s: State, t: Static, k: Token, tail: seq<bool>)
    requires s.mode.Dist? && Usable(DISTS, s.dl) && GoodStatic(t) && GoodToken(k) && k.dist != 0
    requires DistSym(t, k) < |s.dl| && s.dl[DistSym(t, k)] != 0
    requires At(fed, s, DistBits(t, s.dl, k) + tail)
    ensures At(fed, s.(mode := Match(s.mode.length, k.dist)), tail)
  {
    hide At, Usable, CodeBits, BitsOf, ValueOf, Shl, GoodStatic, DistBits;
    TableSizes(t);
    var base, n, x := DistParts(t, s.dl, k);
    var word := CodeBits(s.dl, DistSym(t, k));
    Group3(word, BitsOf(x, n), tail);
    DistSymbolDecodes(fed, s, DistSym(t, k), BitsOf(x, n) + tail);
    ExtraFront(x, n, tail);
    AfterDistExt(fed, s.(mode := DistExt(s.mode.length, base, n)), BitsOf(x, n) + tail, x);
  }

  /** The decoder reads back exactly the token that was sent, in range or not. */
  lemma TokenDecodes(fed: seq<bool>, s: State, t: Static, k: Token, tail: seq<bool>)
    requires s.mode.Len? && Usable(LENS, s.ll) && Usable(DISTS, s.dl)
    requires GoodStatic(t) && GoodToken(k) && Coded(t, s.ll, s.dl, k)
    requires At(fed, s, TokenBits(t, s.ll, s.dl, k) + tail)
    ensures At(fed, s.(mode := if k.dist == 0 then Lit(k.lc) else Match(k.lc + MIN_MATCH, k.dist)), tail)
  {
    hide At, Usable, CodeBits, LengthBits, DistBits, GoodStatic;
    if k.dist == 0 {
      LengthSymbolDecodes(fed, s, k.lc, tail);
    } else {
      var d := DistBits(t, s.dl, k) + tail;
      assert TokenBits(t, s.ll, s.dl, k) + tail == LengthBits(t, s.ll, k) + d;
      LengthDecodes(fed, s, t, k, d);
      DistDecodes(fed, s.(mode := Dist(k.lc + MIN_MATCH)), t, k, tail);
    }
  }

  /** ... and then outputs what it stands for. */
  lemma TokenOutput(fed: seq<bool>, s: State, k: Token, tail: seq<bool>)
    requires At(fed, s.(mode := if k.dist == 0 then Lit(k.lc) else Match(k.lc + MIN_MATCH, k.dist)), tail)
    ensures k.dist <= |s.out| ==> At(fed, s.(mode := Len, out := Emit(s.out, k)), tail)
    ensures k.dist > |s.out| ==> At(fed, s.(mode := Bad), tail)
  {
    hide At, Matched;
    if k.dist == 0 {
      AfterLit(fed, s.(mode := Lit(k.lc)), tail);
    } else if k.dist <= |s.out| {
      AfterMatch(fed, s.(mode := Match(k.lc + MIN_MATCH, k.dist)), tail, k.lc + MIN_MATCH);
    } else {
      AfterBadMatch(fed, s.(mode := Match(k.lc + MIN_MATCH, k.dist)), tail);
    }
  }

  /** The first `n` tokens are decoded to what they stand for. */
  lemma {:induction false} TokensDecode(fed: seq<bool>, s: State, t: Static, ks: seq<Token>, n: nat, tail: seq<bool>)
    requires s.mode.Len? && Usable(LENS, s.ll) && Usable(DISTS, s.dl) && AllCoded(t, s.ll, s.dl, ks) && n <= |ks|
    requires InReach(s.out, ks) && At(fed, s, TokensBits(t, s.ll, s.dl, ks, n) + tail)
    ensures At(fed, s.(out := Expand(s.out, ks, n)), tail)
    decreases n
  {
    hide At, Usable, TokenBits, GoodStatic, Coded, GoodToken, Emit;
    if n == 0 {
      assert [] + tail == tail;
    } else {
      var k := ks[n - 1];
      var rest := TokenBits(t, s.ll, s.dl, k) + tail;
      assert TokensBits(t, s.ll, s.dl, ks, n) + tail == TokensBits(t, s.ll, s.dl, ks, n - 1) + rest;
      TokensDecode(fed, s, t, ks, n - 1, rest);
      var s' := s.(out := Expand(s.out, ks, n - 1));
      TokenDecodes(fed, s', t, k, tail);
      TokenOutput(fed, s', k, tail);
    }
  }

  /** The whole block, up to and including the end-of-block code. */
  lemma BlockDecodes(fed: seq<bool>, s: State, t: Static, ks: seq<Token>, tail: seq<bool>)
    requires s.mode.Len? && Usable(LENS, s.ll) && Usable(DISTS, s.dl) && AllCoded(t, s.ll, s.dl, ks)
    requires InReach(s.out, ks) && At(fed, s, BlockBits(t, s.ll, s.dl, ks) + tail)
    ensures At(fed, s.(mode := Type, out := Expand(s.out, ks, |ks|)), tail)
  {
    hide At, Usable, TokensBits, GoodStatic, Coded, GoodToken, CodeBits, Expand, InReach;
    var rest := CodeBits(s.ll, END_BLOCK) + tail;
    Group3(TokensBits(t, s.ll, s.dl, ks, |ks|), CodeBits(s.ll, END_BLOCK), tail);
    TokensDecode(fed, s, t, ks, |ks|, rest);
    LengthSymbolDecodes(fed, s.(out := Expand(s.out, ks, |ks|)), END_BLOCK, tail);
  }
}

/** Headers of dynamic blocks: `send_all_trees` and `build_bl_tree` of lib/libgz/trees.c, and
    their decoding by the TABLE, LENLENS and CODELENS states of lib/libgz/inflate.c. */
module Headers {
  import opened Common
  import opened Bits
  import opened Canonical
  import opened BitIO
  import opened InflateTable
  import opened Symbols
  import opened Reference
  import opened InflateSteps
  import opened CodeLengths
  import opened Blocks

  /** Codes that can be sent in a header: the two codes of the block and the code length
      code, `blcodes` lengths of which are sent. */
  datatype Codes = Codes(ll: seq<nat>, dl: seq<nat>, cl: seq<nat>, blcodes: nat)

  ghost predicate CodeSizes(c: Codes) {
    257 <= |c.ll| <= 286 && 1 <= |c.dl| <= 30 && 4 <= c.blcodes <= 19 && |c.cl| == 19
  }

  ghost predicate GoodCodes(c: Codes) {
    && CodeSizes(c)
    && Usable(LENS, c.ll) && Usable(DISTS, c.dl) && Usable(CODES, c.cl) && c.ll[256] != 0
    && (forall i :: 0 <= i < 19 ==> c.cl[i] < 8)
    && (forall i :: c.blcodes <= i < 19 ==> c.cl[ORDER[i]] == 0)
    && Sendable(c.cl, Encoded(c.ll)) && Sendable(c.cl, Encoded(c.dl))
  }

  /** The lengths of the code length code, in the order they are sent. */
  ghost function Ranked(cl: seq<nat>, n: nat): (r: seq<nat>)
    requires |cl| == 19 && n <= 19
    ensures |r| == n
  {
    if n == 0 then [] else Ranked(cl, n - 1) + [cl[ORDER[n - 1]]]
  }

  ghost function RankBits(cl: seq<nat>, n: nat): seq<bool>
    requires |cl| == 19 && n <= 19
  {
    if n == 0 then [] else RankBits(cl, n - 1) + BitsOf(cl[ORDER[n - 1]], 3)
  }

  ghost function CountBits(c: Codes): seq<bool>
    requires CodeSizes(c)
  {
    BitsOf(|c.ll| - 257, 5) + (BitsOf(|c.dl| - 1, 5) + BitsOf(c.blcodes - 4, 4))
  }

  ghost function HeaderBits(c: Codes): seq<bool>
    requires CodeSizes(c)
  {
    CountBits(c) + (RankBits(c.cl, c.blcodes) + (ItemsBits(c.cl, Encoded(c.ll)) + ItemsBits(c.cl, Encoded(c.dl))))
  }

  /** `send_all_trees`. */
  method SendAllTrees(w: BitWriter, ldl: array<nat>, lmax: nat, ddl: array<nat>, dmax: nat, codes: seq<nat>, c: Codes)
    requires w.Valid() && CodeSizes(c) && GoodCodes(c) && Tree(codes, c.cl) && |codes| == 19
    requires lmax + 1 < ldl.Length && ldl[lmax + 1] == GUARD && c.ll == ldl[..lmax + 1]
    requires dmax + 1 < ddl.Length && ddl[dmax + 1] == GUARD && c.dl == ddl[..dmax + 1]
    modifies w
    ensures w.Valid() && w.Stream() == old(w.Stream()) + HeaderBits(c)
  {
    hide BitsOf, ByteBits, Tree, Encoded, ItemsBits, Usable, Sendable, Shl, GoodCodes, RankBits;
    FieldBounds(c);
    ghost var start := w.Stream();
    w.SendBits(lmax + 1 - 257, 5);
    w.SendBits(dmax + 1 - 1, 5);
    w.SendBits(c.blcodes - 4, 4);
    Group4(start, BitsOf(lmax + 1 - 257, 5), BitsOf(dmax + 1 - 1, 5), BitsOf(c.blcodes - 4, 4));
    assert w.Stream() == start + CountBits(c);
    hide CountBits;
    SendRanks(w, c);
    LensValid(c);
    SendTree(w, ldl, lmax, codes, c.cl);
    SendTree(w, ddl, dmax, codes, c.cl);
    Group5(start, CountBits(c), RankBits(c.cl, c.blcodes), ItemsBits(c.cl, Encoded(c.ll)),
      ItemsBits(c.cl, Encoded(c.dl)));
  }

  lemma LensValid(c: Codes)
    requires GoodCodes(c)
    ensures CodeSizes(c) && ValidLengths(c.ll) && ValidLengths(c.dl) && c.ll[256] != 0
    ensures Usable(LENS, c.ll) && Usable(DISTS, c.dl) && Usable(CODES, c.cl)
    ensures Sendable(c.cl, Encoded(c.ll)) && Sendable(c.cl, Encoded(c.dl))
  {
    hide Sendable, Encoded;
  }

  lemma FieldBounds(c: Codes)
    requires GoodCodes(c)
    ensures CodeSizes(c) && |c.ll| - 257 < Pow2(5) && |c.dl| - 1 < Pow2(5) && c.blcodes - 4 < Pow2(4)
    ensures forall i :: 0 <= i < 19 ==> c.cl[i] < Pow2(3)
  {
    assert Shl(1, 5) == 32 && Shl(1, 4) == 16 && Shl(1, 3) == 8;
  }

  /** The lengths of the code length code. */
  method SendRanks(w: BitWriter, c: Codes)
    requires w.Valid() && CodeSizes(c) && GoodCodes(c)
    modifies w
    ensures w.Valid() && w.Stream() == old(w.Stream()) + RankBits(c.cl, c.blcodes)
  {
    hide BitsOf, ByteBits, GoodCodes, Shl;
    FieldBounds(c);
    ghost var start := w.Stream();
    for rank := 0 to c.blcodes
      invariant w.Valid() && w.Stream() == start + RankBits(c.cl, rank)
    {
      OrderPlace(rank);
      w.SendBits(c.cl[ORDER[rank]], 3);
    }
  }

  // ---------------------------------------------------------------- and back

  lemma CountsDecode(fed: seq<bool>, s: State, c: Codes, tail: seq<bool>)
    requires s.mode.Table? && CodeSizes(c) && GoodCodes(c) && At(fed, s, CountBits(c) + tail)
    ensures At(fed, s.(mode := LenLens(|c.ll|, |c.dl|, c.blcodes, [])), tail)
  {
    hide At, BitsOf, ValueOf, GoodCodes, Shl;
    FieldBounds(c);
    var x, y, z := |c.ll| - 257, |c.dl| - 1, c.blcodes - 4;
    var r2 := BitsOf(z, 4) + tail;
    var r1 := BitsOf(y, 5) + r2;
    var rest := CountBits(c) + tail;
    assert rest == BitsOf(x, 5) + r1;
    ExtraFront(x, 5, r1);
    ExtraFront(y, 5, r2);
    ExtraFront(z, 4, tail);
    AfterTable(fed, s, rest, x, y, z);
  }

  lemma {:induction false} RanksDecode(fed: seq<bool>, s: State, c: Codes, n: nat, tail: seq<bool>)
    requires s.mode == LenLens(|c.ll|, |c.dl|, c.blcodes, []) && CodeSizes(c) && GoodCodes(c) && n <= c.blcodes
    requires At(fed, s, RankBits(c.cl, n) + tail)
    ensures At(fed, s.(mode := LenLens(|c.ll|, |c.dl|, c.blcodes, Ranked(c.cl, n))), tail)
    decreases n
  {
    hide At, BitsOf, ValueOf, GoodCodes, Shl;
    FieldBounds(c);
    if n == 0 {
      assert [] + tail == tail;
    } else {
      OrderPlace(n - 1);
      var v := c.cl[ORDER[n - 1]];
      var rest := BitsOf(v, 3) + tail;
      assert RankBits(c.cl, n) + tail == RankBits(c.cl, n - 1) + rest;
      RanksDecode(fed, s, c, n - 1, rest);
      ExtraFront(v, 3, tail);
      AfterLenLen(fed, s.(mode := LenLens(|c.ll|, |c.dl|, c.blcodes, Ranked(c.cl, n - 1))), rest, v);
    }
  }

  lemma {:induction false} RankedAt(cl: seq<nat>, n: nat, i: nat)
    requires |cl| == 19 && i < n <= 19
    ensures Ranked(cl, n)[i] == cl[ORDER[i]]
  {
    if i < n - 1 {
      RankedAt(cl, n - 1, i);
    }
  }

  /** The decoder puts the lengths back in their places. */
  lemma RanksPlaced(c: Codes)
    requires GoodCodes(c)
    ensures LengthsSent(Ranked(c.cl, c.blcodes)) == c.cl
  {
    hide Usable, Sendable, Encoded, Ranked, LengthsSent;
    var got := Ranked(c.cl, c.blcodes);
    forall i | 0 <= i < 19
      ensures ORDER[i] < 19 && c.cl[ORDER[i]] == if i < |got| then got[i] else 0
    {
      OrderPlace(i);
      if i < |got| {
        RankedAt(c.cl, c.blcodes, i);
      }
    }
    PlacedIs(got, c.cl);
    assert c.cl[..19] == c.cl;
  }

  /** The two codes come out of the code length states as they went in. */
  lemma TreesDecode(fed: seq<bool>, s: State, c: Codes, tail: seq<bool>)
    requires s.mode == CodeLens(|c.ll|, |c.dl|, c.cl, []) && GoodCodes(c)
    requires At(fed, s, ItemsBits(c.cl, Encoded(c.ll)) + ItemsBits(c.cl, Encoded(c.dl)) + tail)
    ensures At(fed, s.(mode := Len, ll := c.ll, dl := c.dl), tail)
  {
    hide At, Usable, Encoded, ItemsBits, Unroll, GoodCodes, Sendable, Repeatable;
    LensValid(c);
    var a, b := Encoded(c.ll), Encoded(c.dl);
    ItemsBitsAppend(c.cl, a, b);
    TwoTrees(c.ll, c.dl);
    BothSendable(c.cl, a, b);
    EncodedRepeatable(c.ll, b);
    ItemsDecode(fed, s, a + b, tail);
    var lens := c.ll + c.dl;
    assert lens[..|c.ll|] == c.ll && lens[|c.ll|..] == c.dl && lens[256] == c.ll[256];
    AfterCodeLens(fed, s.(mode := CodeLens(|c.ll|, |c.dl|, c.cl, lens)), tail);
  }

  lemma BothSendable(cl: seq<nat>, a: seq<Item>, b: seq<Item>)
    requires Sendable(cl, a) && Sendable(cl, b)
    ensures Sendable(cl, a + b)
  {
    hide GoodItem;
  }

  lemma EncodedRepeatable(lens: seq<nat>, more: seq<Item>)
    requires ValidLengths(lens) && 0 < |lens|
    ensures Repeatable([], Encoded(lens) + more)
  {
    FirstItem(lens, 0, 0);
    ItemsUnroll([], lens, 0, 0, -1);
    assert [] + lens[..0] == [];
    NoItems([], []);
    hide Encoded, Unroll;
    var all := Encoded(lens) + more;
    assert all[0] == Encoded(lens)[0];
  }

  /** `inflate` reads the header back: it is then ready to decode with both codes. */
  lemma HeaderDecodes(fed: seq<bool>, s: State, c: Codes, tail: seq<bool>)
    requires s.mode.Table? && CodeSizes(c) && GoodCodes(c) && At(fed, s, HeaderBits(c) + tail)
    ensures At(fed, s.(mode := Len, ll := c.ll, dl := c.dl), tail)
  {
    hide At, Usable, Encoded, ItemsBits, RankBits, CountBits, Sendable, Ranked, LengthsSent, GoodCodes;
    RanksPlaced(c);
    LensValid(c);
    var trees := ItemsBits(c.cl, Encoded(c.ll)) + ItemsBits(c.cl, Encoded(c.dl));
    var ranks := RankBits(c.cl, c.blcodes);
    assert HeaderBits(c) + tail == CountBits(c) + (ranks + (trees + tail));
    CountsDecode(fed, s, c, ranks + (trees + tail));
    RanksRead(fed, s.(mode := LenLens(|c.ll|, |c.dl|, c.blcodes, [])), c, trees + tail);
    TreesDecode(fed, s.(mode := CodeLens(|c.ll|, |c.dl|, c.cl, [])), c, tail);
  }

  lemma RanksRead(fed: seq<bool>, s: State, c: Codes, tail: seq<bool>)
    requires CodeSizes(c) && GoodCodes(c) && s.mode == LenLens(|c.ll|, |c.dl|, c.blcodes, [])
    requires At(fed, s, RankBits(c.cl, c.blcodes) + tail)
    ensures At(fed, s.(mode := CodeLens(|c.ll|, |c.dl|, c.cl, [])), tail)
  {
    hide At, Usable, RankBits, Ranked, LengthsSent, GoodCodes;
    RanksPlaced(c);
    LensValid(c);
    RanksDecode(fed, s, c, c.blcodes, tail);
    AfterLenLens(fed, s.(mode := LenLens(|c.ll|, |c.dl|, c.blcodes, Ranked(c.cl, c.blcodes))), tail);
  }
}

/** Whole blocks and streams: the trees, headers and data that `_tr_flush_block` of
    lib/libgz/trees.c sends for the tokens of a block, in any of the three formats. */
module Deflate {
  import opened Common
  import opened Bits
  import opened Canonical
  import opened BitIO
  import opened InflateTable
  import opened StaticTables
  import opened Symbols
  import opened Trees
  import opened Optimality
  import opened Reference
  import opened InflateSteps
  import opened CodeLengths
  import opened Blocks
  import opened Headers

  const L_CODES: nat := 286
  const BL_CODES: nat := 19
  const MAX_BL_BITS: nat := 7

  // ---------------------------------------------------------------- codes without trailing zeros

  ghost predicate ZeroFrom(lens: seq<nat>, k: nat) {
    k <= |lens| && forall i :: k <= i < |lens| ==> lens[i] == 0
  }

  lemma {:induction false} FilterTrim(lens: seq<nat>, k: nat, l: nat)
    requires ZeroFrom(lens, k) && 1 <= l
    ensures Filter(lens, l) == Filter(lens[..k], l)
  {
    if k == |lens| {
      assert lens[..k] == lens;
    } else {
      var n := |lens| - 1;
      FilterTrim(lens[..n], k, l);
      assert lens[..n][..k] == lens[..k];
    }
  }

  lemma {:induction false} FirstCodeTrim(lens: seq<nat>, k: nat, l: nat)
    requires ZeroFrom(lens, k)
    ensures FirstCode(lens, l) == FirstCode(lens[..k], l)
  {
    if l != 0 {
      FirstCodeTrim(lens, k, l - 1);
      if l != 1 {
        FilterTrim(lens, k, l - 1);
      }
    }
  }

  lemma {:induction false} KraftTrim(lens: seq<nat>, k: nat, m: nat)
    requires ZeroFrom(lens, k) && ValidLengths(lens)
    ensures Kraft(lens, m) == Kraft(lens[..k], m)
  {
    if k == |lens| {
      assert lens[..k] == lens;
    } else {
      var n := |lens| - 1;
      KraftTrim(lens[..n], k, m);
      assert lens[..n][..k] == lens[..k];
    }
  }

  /** Symbols behind the last one in use do not matter. */
  lemma TrimTree(codes: seq<nat>, lens: seq<nat>, k: nat)
    requires Tree(codes, lens) && |codes| == |lens| && ZeroFrom(lens, k)
    ensures Tree(codes[..k], lens[..k]) && Kraft(lens[..k], MAXBITS) == Kraft(lens, MAXBITS)
  {
    KraftTrim(lens, k, MAXBITS);
    hide Kraft, Rev, Filter, FirstCode;
    forall n | 0 <= n < k && lens[n] != 0
      ensures CodeValue(lens, n) == CodeValue(lens[..k], n)
    {
      FirstCodeTrim(lens, k, lens[n]);
      assert lens[..k][..n] == lens[..n];
    }
  }

  // ---------------------------------------------------------------- building the trees

  /** A complete code for the symbols of `freq`, its codes replacing the frequencies. */
  ghost predicate Built(freq0: seq<nat>, codes: seq<nat>, lens: seq<nat>, maxCode: nat, max: nat) {
    && |freq0| == |codes| == |lens| && maxCode < |lens| && CompleteCode(lens) && Tree(codes, lens)
    && (forall n :: 0 <= n < |lens| ==> lens[n] <= max)
    && (forall n :: 0 <= n < |lens| && freq0[n] != 0 ==> lens[n] != 0)
    && ZeroFrom(lens, maxCode + 1)
  }

  /** The symbols that occur. */
  ghost function Used(freq: seq<nat>): set<nat> {
    set n | 0 <= n < |freq| && freq[n] != 0
  }

  /** No lengths with a Kraft sum of at most one cost fewer bits, unless the total frequency is
      high enough for the limit to matter; and one symbol alone costs one bit. */
  ghost predicate Cheapest(freq: seq<nat>, lens: seq<nat>, max: nat) {
    && |lens| <= |freq| && Members(Used(freq), |lens|)
    && (2 <= |Used(freq)| && Over(Used(freq), freq, |freq|) < Fib(max + 3) ==> Optimal(Used(freq), freq, lens))
    && (|Used(freq)| < 2 ==> forall n :: 0 <= n < |lens| ==> lens[n] <= 1)
  }

  lemma BestCheapest(fc: seq<nat>, freq: seq<nat>, lens: seq<nat>, max: nat, cut: bool, used: set<nat>)
    requires |freq| == |lens| <= |fc| && freq == fc[..|freq|] && used == Used(freq)
    requires if 2 <= |used| then Best(used, fc, lens, max, cut) else forall n :: 0 <= n < |lens| ==> lens[n] <= 1
    ensures Cheapest(freq, lens, max)
  {
    hide Cost, Fib, Over, Feasible, Monotone;
    Agree(used, used, fc, freq, |lens|);
    forall l: seq<nat> | |l| == |lens|
      ensures Cost(used, fc, l) == Cost(used, freq, l)
    {
      CostWeights(used, fc, freq, l);
    }
  }

  lemma CheapestTrim(freq: seq<nat>, lens: seq<nat>, max: nat, k: nat)
    requires Cheapest(freq, lens, max) && k <= |lens| && Members(Used(freq), k)
    ensures Cheapest(freq, lens[..k], max)
  {
    hide Cost, Fib, Over, Feasible;
    var used, short := Used(freq), lens[..k];
    if 2 <= |used| && Over(used, freq, |freq|) < Fib(max + 3) {
      CostLonger(used, freq, short, lens);
      forall l: seq<nat>, b: nat | |l| == k && Feasible(used, l, b)
        ensures Cost(used, freq, short) <= Cost(used, freq, l)
      {
        var longer := l + lens[k..];
        FeasibleLonger(used, l, longer, b);
        CostLonger(used, freq, l, longer);
      }
    }
  }

  method MakeTree(fc: array<nat>, elems: nat, max: nat) returns (dl: array<nat>, maxCode: nat)
    requires 3 <= elems && 2 * elems < fc.Length && 1 <= max <= MAXBITS && elems <= Pow2(max)
    modifies fc
    ensures fresh(dl) && dl.Length == fc.Length && Built(old(fc[..elems]), fc[..elems], dl[..elems], maxCode, max)
    ensures Cheapest(old(fc[..elems]), dl[..elems], max)
  {
    ghost var all: seq<nat> := fc[..];
    hide *;
    var heap := new nat[fc.Length](_ => 0);
    var depth := new nat[fc.Length](_ => 0);
    var bl := new nat[MAXBITS + 1](_ => 0);
    dl := new nat[fc.Length](_ => 0);
    ghost var cut;
    maxCode, cut := BuildTree(heap, depth, fc, dl, bl, elems, max);
    TreeBuilt(all, fc[..], dl[..], elems, maxCode, max, cut);
    assert all[..elems] == old(fc[..elems]) && fc[..][..elems] == fc[..elems] && dl[..][..elems] == dl[..elems];
  }

  /** What `build_tree` ensures, on the first `elems` entries. */
  lemma TreeBuilt(fc: seq<nat>, fc': seq<nat>, dl: seq<nat>, elems: nat, maxCode: nat, max: nat, cut: bool)
    requires elems <= |fc| == |fc'| == |dl| && ValidLengths(dl[..elems]) && maxCode < elems
    requires forall n :: 0 <= n < elems ==> dl[n] <= max
    requires Kraft(dl[..elems], MAXBITS) == Pow2(MAXBITS)
    requires forall n :: 0 <= n < elems && fc[n] != 0 ==> dl[n] != 0
    requires dl[maxCode] != 0 && forall n :: maxCode < n < elems ==> dl[n] == 0
    requires var used := Occurs(fc, elems);
      if 2 <= |used| then Best(used, fc, dl[..elems], max, cut) else forall n :: 0 <= n < elems ==> dl[n] <= 1
    requires forall n :: 0 <= n < elems && dl[n] != 0 ==> fc'[n] == Rev(CodeValue(dl[..elems], n), dl[n])
    ensures Built(fc[..elems], fc'[..elems], dl[..elems], maxCode, max) && Cheapest(fc[..elems], dl[..elems], max)
  {
    var used := Occurs(fc, elems);
    assert used == Used(fc[..elems]);
    hide Kraft, CodeValue, Rev, Shl, Best, Cheapest, Used, Occurs;
    BestCheapest(fc, fc[..elems], dl[..elems], max, cut, used);
  }

  /** The codes actually described in a header. */
  lemma BuiltTrimmed(freq0: seq<nat>, codes: seq<nat>, lens: seq<nat>, maxCode: nat, max: nat)
    requires Built(freq0, codes, lens, maxCode, max)
    ensures Tree(codes[..maxCode + 1], lens[..maxCode + 1]) && CompleteCode(lens[..maxCode + 1])
    ensures forall n :: 0 <= n < |lens| && freq0[n] != 0 ==> n <= maxCode
  {
    TrimTree(codes, lens, maxCode + 1);
    hide Kraft, Tree;
  }

  lemma CompleteUsable(ty: CodeType, lens: seq<nat>)
    requires CompleteCode(lens) && |lens| <= SymbolLimit(ty)
    ensures Usable(ty, lens)
  {
  }

  // ---------------------------------------------------------------- frequencies

  /** The symbols of token `k` have been counted. */
  ghost predicate Seen(t: Static, lf: seq<nat>, df: seq<nat>, k: Token)
    requires GoodStatic(t) && GoodToken(k)
  {
    && |lf| == L_CODES && |df| == D_CODES
    && if k.dist == 0 then lf[k.lc] != 0
       else LenSym(t, k) < L_CODES && lf[LenSym(t, k)] != 0 && DistSym(t, k) < D_CODES && df[DistSym(t, k)] != 0
  }

  ghost predicate GoodTokens(ks: seq<Token>) {
    forall i :: 0 <= i < |ks| ==> GoodToken(ks[i])
  }

  ghost predicate AllSeen(t: Static, lf: seq<nat>, df: seq<nat>, ks: seq<Token>, n: nat)
    requires GoodStatic(t) && GoodTokens(ks) && n <= |ks|
  {
    |lf| == L_CODES && |df| == D_CODES && lf[END_BLOCK] != 0 && forall i :: 0 <= i < n ==> Seen(t, lf, df, ks[i])
  }

  lemma SeenMore(t: Static, lf: seq<nat>, df: seq<nat>, lf': seq<nat>, df': seq<nat>, ks: seq<Token>, n: nat)
    requires GoodStatic(t) && GoodTokens(ks) && n < |ks| && AllSeen(t, lf, df, ks, n) && |lf'| == L_CODES
    requires |df'| == D_CODES
    requires forall i :: 0 <= i < L_CODES ==> lf[i] <= lf'[i]
    requires forall i :: 0 <= i < D_CODES ==> df[i] <= df'[i]
    requires Seen(t, lf', df', ks[n])
    ensures AllSeen(t, lf', df', ks, n + 1)
  {
    TableSizes(t);
    hide GoodStatic;
    forall i | 0 <= i < n
      ensures Seen(t, lf', df', ks[i])
    {
      assert GoodToken(ks[i]) && Seen(t, lf, df, ks[i]);
    }
  }

  /** Token `k` has literal/length symbol `s`. */
  ghost predicate HasSym(t: Static, k: Token, s: nat)
    requires GoodStatic(t) && GoodToken(k)
  {
    s == if k.dist == 0 then k.lc else LenSym(t, k)
  }

  ghost predicate HasDist(t: Static, k: Token, d: nat)
    requires GoodStatic(t) && GoodToken(k)
  {
    k.dist != 0 && d == DistSym(t, k)
  }

  /** How many of the first `n` tokens have symbol `s`. */
  ghost function SymCount(t: Static, ks: seq<Token>, n: nat, s: nat): nat
    requires GoodStatic(t) && GoodTokens(ks) && n <= |ks|
  {
    if n == 0 then 0 else SymCount(t, ks, n - 1, s) + if HasSym(t, ks[n - 1], s) then 1 else 0
  }

  ghost function DistCount(t: Static, ks: seq<Token>, n: nat, d: nat): nat
    requires GoodStatic(t) && GoodTokens(ks) && n <= |ks|
  {
    if n == 0 then 0 else DistCount(t, ks, n - 1, d) + if HasDist(t, ks[n - 1], d) then 1 else 0
  }

  /** The frequencies of the first `n` tokens, and of one end of block. */
  ghost predicate Tallied(t: Static, lf: seq<nat>, df: seq<nat>, ks: seq<Token>, n: nat)
    requires GoodStatic(t) && GoodTokens(ks) && n <= |ks|
  {
    && |lf| == L_CODES && |df| == D_CODES
    && (forall s :: 0 <= s < L_CODES ==> lf[s] == SymCount(t, ks, n, s) + if s == END_BLOCK then 1 else 0)
    && (forall d :: 0 <= d < D_CODES ==> df[d] == DistCount(t, ks, n, d))
  }

  lemma TalliedMore(t: Static, lf: seq<nat>, df: seq<nat>, lf': seq<nat>, df': seq<nat>, ks: seq<Token>, n: nat)
    requires GoodStatic(t) && GoodTokens(ks) && n < |ks| && Tallied(t, lf, df, ks, n)
    requires |lf'| == L_CODES && |df'| == D_CODES && GoodToken(ks[n])
    requires forall s :: 0 <= s < L_CODES ==> lf'[s] == lf[s] + if HasSym(t, ks[n], s) then 1 else 0
    requires forall d :: 0 <= d < D_CODES ==> df'[d] == df[d] + if HasDist(t, ks[n], d) then 1 else 0
    ensures Tallied(t, lf', df', ks, n + 1)
  {
    hide GoodStatic, HasSym, HasDist;
  }

  /** `init_block` and `_tr_tally`: count the symbols of all tokens, and one end of block. */
  method Tally(t: Static, ks: seq<Token>) returns (lf: array<nat>, df: array<nat>)
    requires GoodStatic(t) && GoodTokens(ks)
    ensures fresh(lf) && fresh(df) && lf != df && lf.Length == 2 * L_CODES + 1 && df.Length == 2 * D_CODES + 1
    ensures AllSeen(t, lf[..L_CODES], df[..D_CODES], ks, |ks|) && Tallied(t, lf[..L_CODES], df[..D_CODES], ks, |ks|)
  {
    lf := new nat[2 * L_CODES + 1](_ => 0);
    df := new nat[2 * D_CODES + 1](_ => 0);
    lf[END_BLOCK] := 1;
    assert Tallied(t, lf[..L_CODES], df[..D_CODES], ks, 0);
    hide GoodStatic, Seen, Tallied, HasSym, HasDist;
    for i := 0 to |ks|
      invariant AllSeen(t, lf[..L_CODES], df[..D_CODES], ks, i) && Tallied(t, lf[..L_CODES], df[..D_CODES], ks, i)
    {
      assert GoodToken(ks[i]);
      label Before:
      TallyOne(t, lf, df, ks[i]);
      TalliedMore(t, old@Before(lf[..L_CODES]), old@Before(df[..D_CODES]), lf[..L_CODES], df[..D_CODES], ks, i);
      SeenMore(t, old@Before(lf[..L_CODES]), old@Before(df[..D_CODES]), lf[..L_CODES], df[..D_CODES], ks, i);
    }
  }

  /** `_tr_tally`. */
  method TallyOne(t: Static, lf: array<nat>, df: array<nat>, k: Token)
    requires GoodStatic(t) && GoodToken(k) && lf != df && L_CODES <= lf.Length && D_CODES <= df.Length
    modifies lf, df
    ensures forall i :: 0 <= i < L_CODES ==> lf[i] == old(lf[i]) + if HasSym(t, k, i) then 1 else 0
    ensures forall i :: 0 <= i < D_CODES ==> df[i] == old(df[i]) + if HasDist(t, k, i) then 1 else 0
    ensures Seen(t, lf[..L_CODES], df[..D_CODES], k)
  {
    TableSizes(t);
    hide GoodStatic, Seen;
    if k.dist == 0 {
      lf[k.lc] := lf[k.lc] + 1;
    } else {
      LengthFacts(t, k);
      DistFacts(t, k);
      var c := t.lengthCode[k.lc] + LITERALS + 1;
      lf[c] := lf[c] + 1;
      var d := DCode(t.distCode, k.dist - 1);
      df[d] := df[d] + 1;
    }
    SeenNow(t, lf[..L_CODES], df[..D_CODES], k);
  }

  lemma SeenNow(t: Static, lf: seq<nat>, df: seq<nat>, k: Token)
    requires GoodStatic(t) && GoodToken(k) && |lf| == L_CODES && |df| == D_CODES
    requires |t.lengthCode| == 256 && |t.distCode| == 512
    requires k.dist == 0 ==> lf[k.lc] != 0
    requires k.dist != 0 ==>
      LenSym(t, k) < L_CODES && lf[LenSym(t, k)] != 0 && DistSym(t, k) < D_CODES && df[DistSym(t, k)] != 0
    ensures Seen(t, lf, df, k)
  {
  }

  // ---------------------------------------------------------------- dynamic blocks

  /** Some length other than 0 is sent as itself. */
  lemma {:induction false} ZerosOnly(pre: seq<nat>, items: seq<Item>)
    requires forall i :: 0 <= i < |pre| ==> pre[i] == 0
    requires forall i :: 0 <= i < |items| ==> !(1 <= items[i].sym <= 15)
    ensures forall i :: 0 <= i < |Unroll(pre, items)| ==> Unroll(pre, items)[i] == 0
    decreases |items|
  {
    if |items| != 0 {
      ZerosOnly(Apply(pre, items[0]), items[1..]);
    }
  }

  lemma SomeLength(lens: seq<nat>, n: nat) returns (i: nat)
    requires ValidLengths(lens) && n < |lens| && lens[n] != 0
    ensures i < |Encoded(lens)| && 1 <= Encoded(lens)[i].sym <= 15
  {
    ItemsUnroll([], lens, 0, 0, -1);
    assert [] + lens[..0] == [] && [] + lens == lens;
    var items := Encoded(lens);
    if j :| 0 <= j < |items| && 1 <= items[j].sym <= 15 {
      i := j;
    } else {
      ZerosOnly([], items);
      assert false;
    }
  }

  /** All symbols of the two encodings are counted, so all have codes. */
  lemma CountedSendable(lens: seq<nat>, base: seq<nat>, freq: seq<nat>, freq': seq<nat>, cl: seq<nat>)
    requires ValidLengths(lens) && |base| == |freq| == |freq'| == |cl| == BL_CODES && Counts(freq, base, Encoded(lens))
    requires forall n :: 0 <= n < BL_CODES ==> freq[n] <= freq'[n]
    requires forall n :: 0 <= n < BL_CODES && freq'[n] != 0 ==> cl[n] != 0
    ensures Sendable(cl, Encoded(lens))
  {
    ItemsGood(lens, 0, 0, -1);
    var items := Encoded(lens);
    hide Items, Encoded;
    forall i | 0 <= i < |items|
      ensures GoodItem(items[i]) && cl[items[i].sym] != 0
    {
      Counted(items, i);
    }
  }

  lemma CountsGrow(base: seq<nat>, freq: seq<nat>, items: seq<Item>)
    requires Counts(freq, base, items)
    ensures |freq| == |base| && forall n :: 0 <= n < |freq| ==> base[n] <= freq[n]
  {
    hide Count;
  }

  /** The last loop of `build_bl_tree`: how many lengths of the code length code to send. */
  method LastRank(cl: seq<nat>) returns (blcodes: nat)
    requires |cl| == BL_CODES && exists v :: 1 <= v <= 15 && cl[v] != 0
    ensures 4 <= blcodes <= 19 && forall i :: blcodes <= i < 19 ==> cl[ORDER[i]] == 0
    ensures cl[ORDER[blcodes - 1]] != 0
  {
    ghost var v :| 1 <= v <= 15 && cl[v] != 0;
    OrderPlace(v);
    ghost var p := PLACE[v];
    assert 3 <= p && cl[ORDER[p]] != 0;
    var rank := BL_CODES - 1;
    while rank >= 3
      invariant 2 <= rank < BL_CODES && p <= rank
      invariant forall i :: rank < i < 19 ==> cl[ORDER[i]] == 0
    {
      if cl[ORDER[rank]] != 0 {
        break;
      }
      rank := rank - 1;
    }
    blcodes := rank + 1;
  }

  /** `build_bl_tree`, and the codes that the header will describe. */
  method BuildBlTree(ldl: array<nat>, lmax: nat, ddl: array<nat>, dmax: nat)
    returns (codes: seq<nat>, cl: seq<nat>, blcodes: nat)
    requires ldl != ddl && lmax + 1 < ldl.Length && dmax + 1 < ddl.Length
    requires ValidLengths(ldl[..lmax + 1]) && ValidLengths(ddl[..dmax + 1]) && END_BLOCK <= lmax && ldl[END_BLOCK] != 0
    modifies ldl, ddl
    ensures forall i :: 0 <= i < ldl.Length ==> ldl[i] == if i == lmax + 1 then GUARD else old(ldl[i])
    ensures forall i :: 0 <= i < ddl.Length ==> ddl[i] == if i == dmax + 1 then GUARD else old(ddl[i])
    ensures Tree(codes, cl) && |codes| == |cl| == BL_CODES && CompleteCode(cl)
    ensures (forall i :: 0 <= i < 19 ==> cl[i] < 8) && 4 <= blcodes <= 19 && forall i :: blcodes <= i < 19 ==>
      cl[ORDER[i]] == 0
    ensures cl[ORDER[blcodes - 1]] != 0
    ensures Sendable(cl, Encoded(old(ldl[..lmax + 1]))) && Sendable(cl, Encoded(old(ddl[..dmax + 1])))
  {
    ghost var ll, dl := ldl[..lmax + 1], ddl[..dmax + 1];
    Powers();
    hide Encoded, Counts, Tree, CompleteCode, Sendable, Shl;
    var bf := new nat[2 * BL_CODES + 1](_ => 0);
    ghost var f0 := bf[..BL_CODES];
    ScanTree(ldl, lmax, bf);
    ghost var f1 := bf[..BL_CODES];
    assert ddl[..dmax + 1] == dl;
    ScanTree(ddl, dmax, bf);
    ghost var f2 := bf[..BL_CODES];
    var bdl, bmax := MakeTree(bf, BL_CODES, MAX_BL_BITS);
    codes, cl := bf[..BL_CODES], bdl[..BL_CODES];
    CountsGrow(f1, f2, Encoded(dl));
    CountedSendable(ll, f0, f1, f2, cl);
    CountedSendable(dl, f1, f2, f2, cl);
    assert ll[END_BLOCK] != 0;
    ghost var i := SomeLength(ll, END_BLOCK);
    SentCoded(cl, Encoded(ll), i);
    blcodes := LastRank(cl);
  }

  lemma SentCoded(cl: seq<nat>, items: seq<Item>, i: nat)
    requires Sendable(cl, items) && i < |items|
    ensures items[i].sym < |cl| && cl[items[i].sym] != 0
  {
  }

  /** `AllCoded` for codes built from the frequencies of the tokens. */
  lemma SeenCoded(t: Static, ks: seq<Token>, lf: seq<nat>, df: seq<nat>, ll: seq<nat>, dl: seq<nat>)
    requires GoodStatic(t) && GoodTokens(ks) && AllSeen(t, lf, df, ks, |ks|) && END_BLOCK < |ll| <= L_CODES
    requires |dl| <= D_CODES
    requires forall n :: 0 <= n < L_CODES && lf[n] != 0 ==> n < |ll| && ll[n] != 0
    requires forall n :: 0 <= n < D_CODES && df[n] != 0 ==> n < |dl| && dl[n] != 0
    ensures AllCoded(t, ll, dl, ks)
  {
    TableSizes(t);
    hide GoodStatic;
    forall i | 0 <= i < |ks|
      ensures GoodToken(ks[i]) && Coded(t, ll, dl, ks[i])
    {
      assert GoodToken(ks[i]) && Seen(t, lf, df, ks[i]);
    }
  }

  /** A code built for `freq` and cut behind its last symbol. */
  ghost predicate Fitting(freq: seq<nat>, codes: seq<nat>, lens: seq<nat>) {
    && |codes| == |lens| <= |freq| && Tree(codes, lens) && CompleteCode(lens) && 1 <= |lens|
    && forall n :: 0 <= n < |freq| && freq[n] != 0 ==> n < |lens| && lens[n] != 0
  }

  /** The tree of a list of frequencies, as it is sent. */
  method BuildSent(fc: array<nat>, elems: nat) returns (dl: array<nat>, maxCode: nat)
    requires 3 <= elems <= 32768 && 2 * elems < fc.Length
    modifies fc
    ensures fresh(dl) && dl.Length == fc.Length && maxCode < elems
    ensures Fitting(old(fc[..elems]), fc[..maxCode + 1], dl[..maxCode + 1])
    ensures Cheapest(old(fc[..elems]), dl[..maxCode + 1], MAXBITS)
  {
    FixedWeights();
    hide Shl, Built, CompleteCode, Tree, Cheapest;
    ghost var freq := fc[..elems];
    dl, maxCode := MakeTree(fc, elems, MAXBITS);
    BuiltFitting(freq, fc[..elems], dl[..elems], maxCode, MAXBITS);
    UsedFitting(freq, fc[..elems][..maxCode + 1], dl[..elems][..maxCode + 1]);
    CheapestTrim(freq, dl[..elems], MAXBITS, maxCode + 1);
    assert fc[..elems][..maxCode + 1] == fc[..maxCode + 1] && dl[..elems][..maxCode + 1] == dl[..maxCode + 1];
  }

  lemma UsedFitting(freq: seq<nat>, codes: seq<nat>, lens: seq<nat>)
    requires Fitting(freq, codes, lens)
    ensures Members(Used(freq), |lens|)
  {
    hide CompleteCode, Tree;
  }

  lemma BuiltFitting(freq: seq<nat>, codes: seq<nat>, lens: seq<nat>, maxCode: nat, max: nat)
    requires Built(freq, codes, lens, maxCode, max)
    ensures maxCode < |lens| && Fitting(freq, codes[..maxCode + 1], lens[..maxCode + 1])
  {
    BuiltTrimmed(freq, codes, lens, maxCode, max);
    hide CompleteCode, Tree;
  }

  /** The codes of a dynamic block fit together. */
  lemma CodesFit(c: Codes, lf: seq<nat>, df: seq<nat>, lcodes: seq<nat>, dcodes: seq<nat>)
    requires |lf| == L_CODES && |df| == D_CODES && Fitting(lf, lcodes, c.ll) && Fitting(df, dcodes, c.dl)
    requires lf[END_BLOCK] != 0
    requires |c.cl| == 19 && CompleteCode(c.cl) && (forall i :: 0 <= i < 19 ==> c.cl[i] < 8)
    requires 4 <= c.blcodes <= 19 && forall i :: c.blcodes <= i < 19 ==> c.cl[ORDER[i]] == 0
    requires Sendable(c.cl, Encoded(c.ll)) && Sendable(c.cl, Encoded(c.dl))
    ensures GoodCodes(c)
  {
    CompleteUsable(LENS, c.ll);
    CompleteUsable(DISTS, c.dl);
    CompleteUsable(CODES, c.cl);
    hide CompleteCode, Sendable, Encoded, Tree, Usable;
  }

  ghost function LastBit(last: bool): nat {
    if last then 1 else 0
  }

  ghost function DynamicBits(t: Static, c: Codes, ks: seq<Token>, last: bool): seq<bool>
    requires CodeSizes(c) && AllCoded(t, c.ll, c.dl, ks)
  {
    BitsOf(4 + LastBit(last), 3) + (HeaderBits(c) + BlockBits(t, c.ll, c.dl, ks))
  }

  /** Both codes are the cheapest for the tokens. */
  ghost predicate MadeFor(t: Static, c: Codes, ks: seq<Token>)
    requires GoodStatic(t) && GoodTokens(ks)
  {
    forall f, g :: Tallied(t, f, g, ks, |ks|) ==> Cheapest(f, c.ll, MAXBITS) && Cheapest(g, c.dl, MAXBITS)
  }

  lemma MadeForThese(t: Static, c: Codes, ks: seq<Token>, f: seq<nat>, g: seq<nat>)
    requires GoodStatic(t) && GoodTokens(ks) && Tallied(t, f, g, ks, |ks|)
    requires Cheapest(f, c.ll, MAXBITS) && Cheapest(g, c.dl, MAXBITS)
    ensures MadeFor(t, c, ks)
  {
    hide Cheapest, GoodStatic;
    forall f', g' | Tallied(t, f', g', ks, |ks|)
      ensures f' == f && g' == g
    {
      forall s | 0 <= s < |f| ensures f'[s] == f[s] {}
      forall d | 0 <= d < |g| ensures g'[d] == g[d] {}
    }
  }

  /** A dynamic block: count, build the trees, send header and data. */
  method DynamicBlock(w: BitWriter, t: Static, ks: seq<Token>, last: bool) returns (ghost c: Codes)
    requires w.Valid() && GoodStatic(t) && GoodTokens(ks)
    modifies w
    ensures w.Valid() && GoodCodes(c) && AllCoded(t, c.ll, c.dl, ks)
    ensures w.Stream() == old(w.Stream()) + DynamicBits(t, c, ks, last)
    ensures MadeFor(t, c, ks)
  {
    hide MadeFor, Tallied, Cheapest, BitsOf, ByteBits, GoodStatic, Shl, Tree, CompleteCode, Sendable, Encoded,
         HeaderBits, BlockBits, AllSeen,
         Fitting, AllCoded;
    var lf, df := Tally(t, ks);
    ghost var f, g := lf[..L_CODES], df[..D_CODES];
    var ldl, lmax := BuildSent(lf, L_CODES);
    var ddl, dmax := BuildSent(df, D_CODES);
    var ll, dl := ldl[..lmax + 1], ddl[..dmax + 1];
    FittingFacts(t, ks, f, g, lf[..lmax + 1], ll, df[..dmax + 1], dl);
    assert ldl[END_BLOCK] == ll[END_BLOCK];
    var codes, cl, blcodes := BuildBlTree(ldl, lmax, ddl, dmax);
    assert ldl[..lmax + 1] == ll && ddl[..dmax + 1] == dl;
    c := Codes(ll, dl, cl, blcodes);
    CodesFit(c, f, g, lf[..lmax + 1], df[..dmax + 1]);
    MadeForThese(t, c, ks, f, g);
    ghost var start := w.Stream();
    Powers();
    w.SendBits(4 + if last then 1 else 0, 3);
    SendAllTrees(w, ldl, lmax, ddl, dmax, codes, Codes(ll, dl, cl, blcodes));
    CompressBlock(w, t, lf[..lmax + 1], ll, df[..dmax + 1], dl, ks);
    Group4(start, BitsOf(4 + LastBit(last), 3), HeaderBits(c), BlockBits(t, ll, dl, ks));
  }

  lemma FittingFacts(t: Static, ks: seq<Token>, lf: seq<nat>, df: seq<nat>, lcodes: seq<nat>, ll: seq<nat>,
                     dcodes: seq<nat>, dl: seq<nat>)
    requires GoodStatic(t) && GoodTokens(ks) && AllSeen(t, lf, df, ks, |ks|) && Fitting(lf, lcodes, ll)
    requires Fitting(df, dcodes, dl)
    ensures |lf| == L_CODES && |df| == D_CODES && lf[END_BLOCK] != 0
    ensures ValidLengths(ll) && ValidLengths(dl) && END_BLOCK < |ll| == |lcodes| && ll[END_BLOCK] != 0
    ensures |dl| == |dcodes|
    ensures Tree(lcodes, ll) && Tree(dcodes, dl)
    ensures AllCoded(t, ll, dl, ks) && forall i :: 0 <= i < |ks| ==> InTrees(t, lcodes, dcodes, ks[i])
  {
    SeenCoded(t, ks, lf, df, ll, dl);
    TableSizes(t);
    hide GoodStatic;
    forall i | 0 <= i < |ks|
      ensures InTrees(t, lcodes, dcodes, ks[i])
    {
      assert GoodToken(ks[i]) && Coded(t, ll, dl, ks[i]);
    }
  }

  // ---------------------------------------------------------------- static blocks

  lemma {:induction false} FilterRepeat(lens: seq<nat>, v: nat, n: nat, b: nat)
    ensures |Filter(lens + Repeat(v, n), b)| == |Filter(lens, b)| + if b == v then n else 0
  {
    hide Repeat;
    RepeatMore(v, if n == 0 then 0 else n - 1);
    if n == 0 {
      assert lens + [] == lens;
    } else {
      var all := lens + Repeat(v, n);
      assert all == lens + Repeat(v, n - 1) + [v];
      assert all[..|all| - 1] == lens + Repeat(v, n - 1);
      FilterRepeat(lens, v, n - 1, b);
    }
  }

  lemma FilterEmpty(b: nat)
    ensures |Filter([], b)| == 0
  {
  }

  /** How many codes of each length the static literal tree has. */
  lemma StaticCounts(b: nat)
    ensures |Filter(FIXED_LL, b)| == if b == 7 then 24 else if b == 8 then 152 else if b == 9 then 112 else 0
  {
    hide Filter, Repeat;
    FilterEmpty(b);
    var a := Repeat(8, 144);
    assert [] + a == a;
    FilterRepeat([], 8, 144, b);
    FilterRepeat(a, 9, 112, b);
    FilterRepeat(a + Repeat(9, 112), 7, 24, b);
    FilterRepeat(a + Repeat(9, 112) + Repeat(7, 24), 8, 8, b);
  }

  lemma {:induction false} NoShorter(lens: seq<nat>, l: nat)
    requires forall b :: 1 <= b < l ==> |Filter(lens, b)| == 0
    ensures FirstCode(lens, l) == 0
  {
    hide Filter;
    if l != 0 {
      NoShorter(lens, l - 1);
    }
  }

  /** In the static distance code, symbol `n` has value `n`. */
  lemma StaticDist(n: nat)
    requires n < 32
    ensures FIXED_DL[n] == 5 && CodeValue(FIXED_DL, n) == n
  {
    assert [] + FIXED_DL == FIXED_DL && [] + Repeat(5, n) == Repeat(5, n) == FIXED_DL[..n];
    forall b | 1 <= b < 5
      ensures |Filter(FIXED_DL, b)| == 0
    {
      FilterEmpty(b);
      FilterRepeat([], 5, 32, b);
    }
    NoShorter(FIXED_DL, 5);
    FilterEmpty(5);
    FilterRepeat([], 5, n, 5);
  }

  /** The first lengths of the static literal tree, by ranges. */
  method FillLengths(dl: array<nat>, bl: array<nat>, from: nat, to: nat, len: nat)
    requires dl != bl && from <= to <= dl.Length && len < bl.Length
    modifies dl, bl
    ensures forall i :: 0 <= i < dl.Length ==> dl[i] == if from <= i < to then len else old(dl[i])
    ensures forall b :: 0 <= b < bl.Length ==> bl[b] == old(bl[b]) + if b == len then to - from else 0
  {
    var n := from;
    while n < to
      invariant from <= n <= to
      invariant forall i :: 0 <= i < dl.Length ==> dl[i] == if from <= i < n then len else old(dl[i])
      invariant forall b :: 0 <= b < bl.Length ==> bl[b] == old(bl[b]) + if b == len then n - from else 0
    {
      dl[n] := len;
      bl[len] := bl[len] + 1;
      n := n + 1;
    }
  }

  /** The static trees of `tr_static_init`: the fixed codes of section 3.2.6 of RFC 1951. */
  method StaticTrees() returns (lcodes: seq<nat>, dcodes: seq<nat>)
    ensures |lcodes| == 288 && Tree(lcodes, FIXED_LL) && |dcodes| == D_CODES && Tree(dcodes, FIXED_DL)
  {
    var dl := new nat[288](_ => 0);
    var bl := new nat[MAXBITS + 1](_ => 0);
    FillLengths(dl, bl, 0, 144, 8);
    FillLengths(dl, bl, 144, 256, 9);
    FillLengths(dl, bl, 256, 280, 7);
    FillLengths(dl, bl, 280, 288, 8);
    FixedComplete();
    assert dl[..] == FIXED_LL;
    hide Filter, Kraft, CodeValue, Rev, Shl;
    forall b | 1 <= b <= MAXBITS
      ensures bl[b] == |Filter(FIXED_LL, b)|
    {
      StaticCounts(b);
    }
    var code := new nat[288](_ => 0);
    GenCodes(code, dl[..], 287, bl[..]);
    lcodes := code[..];
    dcodes := StaticDists();
  }

  method StaticDists() returns (dcodes: seq<nat>)
    ensures |dcodes| == D_CODES && Tree(dcodes, FIXED_DL)
  {
    FixedComplete();
    Powers();
    hide CodeValue, Rev, Shl, CompleteCode;
    dcodes := [];
    for n := 0 to D_CODES
      invariant |dcodes| == n && forall i :: 0 <= i < n ==>
        FIXED_DL[i] == 5 && dcodes[i] == Rev(CodeValue(FIXED_DL, i), 5)
    {
      StaticDist(n);
      var r := BiReverse(n, 5);
      dcodes := dcodes + [r];
    }
  }

  lemma StaticCoded(t: Static, ks: seq<Token>)
    requires GoodStatic(t) && GoodTokens(ks)
    ensures AllCoded(t, FIXED_LL, FIXED_DL, ks) && Usable(LENS, FIXED_LL) && Usable(DISTS, FIXED_DL)
  {
    FixedComplete();
    CompleteUsable(LENS, FIXED_LL);
    CompleteUsable(DISTS, FIXED_DL);
    TableSizes(t);
    hide GoodStatic, CompleteCode, Usable;
    forall i | 0 <= i < |ks|
      ensures GoodToken(ks[i]) && Coded(t, FIXED_LL, FIXED_DL, ks[i])
    {
      assert GoodToken(ks[i]);
      LengthFacts(t, ks[i]);
      if ks[i].dist != 0 {
        DistFacts(t, ks[i]);
      }
    }
  }

  ghost function StaticBits(t: Static, ks: seq<Token>, last: bool): seq<bool>
    requires AllCoded(t, FIXED_LL, FIXED_DL, ks)
  {
    BitsOf(2 + LastBit(last), 3) + BlockBits(t, FIXED_LL, FIXED_DL, ks)
  }

  /** A block with the static trees. */
  method StaticBlock(w: BitWriter, t: Static, lcodes: seq<nat>, dcodes: seq<nat>, ks: seq<Token>, last: bool)
    requires w.Valid() && GoodStatic(t) && GoodTokens(ks)
    requires |lcodes| == 288 && Tree(lcodes, FIXED_LL) && |dcodes| == D_CODES && Tree(dcodes, FIXED_DL)
    modifies w
    ensures w.Valid() && AllCoded(t, FIXED_LL, FIXED_DL, ks) && w.Stream() == old(w.Stream()) + StaticBits(t, ks, last)
  {
    hide BitsOf, ByteBits, GoodStatic, Shl, Tree, BlockBits, AllCoded, Usable;
    StaticCoded(t, ks);
    Powers();
    StaticInTrees(t, lcodes, dcodes, ks);
    w.SendBits(2 + if last then 1 else 0, 3);
    CompressBlock(w, t, lcodes, FIXED_LL, dcodes, FIXED_DL, ks);
  }

  lemma StaticInTrees(t: Static, lcodes: seq<nat>, dcodes: seq<nat>, ks: seq<Token>)
    requires GoodStatic(t) && GoodTokens(ks) && |lcodes| == 288 && |dcodes| == D_CODES
    ensures forall i :: 0 <= i < |ks| ==> GoodToken(ks[i]) && InTrees(t, lcodes, dcodes, ks[i])
  {
    TableSizes(t);
    hide GoodStatic;
    forall i | 0 <= i < |ks|
      ensures GoodToken(ks[i]) && InTrees(t, lcodes, dcodes, ks[i])
    {
      assert GoodToken(ks[i]);
      LengthFacts(t, ks[i]);
      if ks[i].dist != 0 {
        DistFacts(t, ks[i]);
      }
    }
  }

  // ---------------------------------------------------------------- stored blocks

  ghost function StoredBits(data: seq<nat>, pad: nat, last: bool): seq<bool>
    requires |data| <= 65535
  {
    BitsOf(LastBit(last), 3) + (BitsOf(0, pad) + (BitsOf(|data|, 16) + (BitsOf(65535 - |data|, 16) + ByteBits(data))))
  }

  /** `_tr_stored_block` with `copy_block`: the bytes as they are, at a byte boundary. */
  method StoredBlock(w: BitWriter, data: seq<nat>, last: bool) returns (ghost pad: nat)
    requires w.Valid() && |data| <= 65535 && forall i :: 0 <= i < |data| ==> data[i] < 256
    modifies w
    ensures w.Valid() && pad < 8 && w.Stream() == old(w.Stream()) + StoredBits(data, pad, last) && |w.Stream()| % 8 == 0
  {
    hide BitsOf, ByteBits, Shl;
    Powers();
    Powers();
    ghost var start := w.Stream();
    w.SendBits(if last then 1 else 0, 3);
    pad := w.BiWindup();
    ghost var s1 := ByteBits(w.pending);
    w.PutShort(|data|);
    w.PutShort(65535 - |data|);
    ghost var s2 := w.pending;
    w.pending := w.pending + data;
    ByteBitsAppend(s2, data);
    ByteBitsLength(w.pending);
    EmptyBuffer();
    assert w.Stream() == ByteBits(w.pending);
    Group6(start, BitsOf(LastBit(last), 3), BitsOf(0, pad), BitsOf(|data|, 16), BitsOf(65535 - |data|, 16),
      ByteBits(data));
  }

}

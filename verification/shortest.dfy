/** The codes of a dynamic block give the shortest data part that any codes could. */
module Shortest {
  import opened Bits
  import opened Canonical
  import opened BitIO
  import opened InflateTable
  import opened StaticTables
  import opened Symbols
  import opened Trees
  import opened Optimality
  import opened CodeLengths
  import opened Blocks
  import opened Headers
  import opened Deflate

  // ---------------------------------------------------------------- the length of a block

  /** Extra bits of a token: the same for all codes. */
  ghost function ExtraOf(t: Static, k: Token): nat
    requires GoodStatic(t) && GoodToken(k)
  {
    LengthFacts(t, k);
    if k.dist == 0 then 0
    else
      DistFacts(t, k);
      EXTRA_LBITS[t.lengthCode[k.lc]] + EXTRA_DBITS[DistSym(t, k)]
  }

  ghost function Extras(t: Static, ks: seq<Token>, n: nat): nat
    requires GoodStatic(t) && GoodTokens(ks) && n <= |ks|
  {
    if n == 0 then 0 else Extras(t, ks, n - 1) + ExtraOf(t, ks[n - 1])
  }

  /** Bits of the code words of the first `n` tokens. */
  ghost function Words(t: Static, ll: seq<nat>, dl: seq<nat>, ks: seq<Token>, n: nat): nat
    requires AllCoded(t, ll, dl, ks) && n <= |ks|
  {
    if n == 0 then 0
    else
      var k := ks[n - 1];
      Words(t, ll, dl, ks, n - 1) + (if k.dist == 0 then ll[k.lc] else ll[LenSym(t, k)] + dl[DistSym(t, k)])
  }

  lemma WordLength(lens: seq<nat>, s: nat)
    requires s < |lens|
    ensures |CodeBits(lens, s)| == lens[s]
  {
    hide CodeValue, Rev;
  }

  lemma TokenLength(t: Static, ll: seq<nat>, dl: seq<nat>, k: Token)
    requires GoodStatic(t) && GoodToken(k) && Coded(t, ll, dl, k)
    ensures |TokenBits(t, ll, dl, k)| ==
      (if k.dist == 0 then ll[k.lc] else ll[LenSym(t, k)] + dl[DistSym(t, k)]) + ExtraOf(t, k)
  {
    LengthFacts(t, k);
    hide CodeBits, GoodStatic;
    if k.dist == 0 {
      WordLength(ll, k.lc);
    } else {
      DistFacts(t, k);
      WordLength(ll, LenSym(t, k));
      WordLength(dl, DistSym(t, k));
    }
  }

  lemma {:induction false} TokensLength(t: Static, ll: seq<nat>, dl: seq<nat>, ks: seq<Token>, n: nat)
    requires AllCoded(t, ll, dl, ks) && n <= |ks| && GoodTokens(ks)
    ensures |TokensBits(t, ll, dl, ks, n)| == Words(t, ll, dl, ks, n) + Extras(t, ks, n)
  {
    hide GoodStatic, TokenBits, ExtraOf;
    if n != 0 {
      TokensLength(t, ll, dl, ks, n - 1);
      TokenLength(t, ll, dl, ks[n - 1]);
    }
  }

  // ---------------------------------------------------------------- by symbols

  ghost function SymCounts(t: Static, ks: seq<Token>, n: nat): (f: seq<nat>)
    requires GoodStatic(t) && GoodTokens(ks) && n <= |ks|
    ensures |f| == L_CODES && forall s :: 0 <= s < L_CODES ==> f[s] == SymCount(t, ks, n, s)
  {
    seq(L_CODES, s requires 0 <= s < L_CODES => SymCount(t, ks, n, s))
  }

  ghost function DistCounts(t: Static, ks: seq<Token>, n: nat): (g: seq<nat>)
    requires GoodStatic(t) && GoodTokens(ks) && n <= |ks|
    ensures |g| == D_CODES && forall d :: 0 <= d < D_CODES ==> g[d] == DistCount(t, ks, n, d)
  {
    seq(D_CODES, d requires 0 <= d < D_CODES => DistCount(t, ks, n, d))
  }

  ghost function Upto(n: nat): (r: set<nat>)
    ensures forall i :: i in r <==> 0 <= i < n
  {
    if n == 0 then {} else Upto(n - 1) + {n - 1}
  }

  lemma PaidMore(w: nat, l: nat)
    ensures Paid(w + 1, l) == Paid(w, l) + l && Paid(0, l) == 0
  {
  }

  /** One more occurrence of symbol `s`. */
  lemma OneMoreCost(w: seq<nat>, w': seq<nat>, l: seq<nat>, s: nat)
    requires |l| <= |w| == |w'| && s < |l| && w'[s] == w[s] + 1
    requires forall v :: 0 <= v < |w| && v != s ==> w'[v] == w[v]
    ensures Cost(Upto(|l|), w', l) == Cost(Upto(|l|), w, l) + l[s]
  {
    hide Upto, Over, Paid, Cost;
    var all := Upto(|l|);
    assert s in all;
    CostOut(all, w, l, s);
    CostOut(all, w', l, s);
    PaidMore(w[s], l[s]);
    CostOthers(all - {s}, w, w', l, s);
  }

  lemma CostOthers(u: set<nat>, w: seq<nat>, w': seq<nat>, l: seq<nat>, s: nat)
    requires |l| <= |w| == |w'| && s !in u && forall v :: 0 <= v < |w| && v != s ==> w'[v] == w[v]
    ensures Cost(u, w, l) == Cost(u, w', l)
  {
    hide Over, Paid;
    Agree(u, u, Costs(w, l), Costs(w', l), |l|);
  }

  lemma NoCost(w: seq<nat>, l: seq<nat>)
    requires |l| <= |w| && forall v :: 0 <= v < |l| ==> w[v] == 0
    ensures Cost(Upto(|l|), w, l) == 0
  {
    forall v | 0 <= v < |l|
      ensures Costs(w, l)[v] == 0
    {
      PaidMore(0, l[v]);
    }
    OverZero(Upto(|l|), Costs(w, l), |l|);
  }

  /** The code words of all tokens cost what their symbols cost. */
  lemma {:induction false} WordsCost(t: Static, ll: seq<nat>, dl: seq<nat>, ks: seq<Token>, n: nat)
    requires AllCoded(t, ll, dl, ks) && n <= |ks| && GoodTokens(ks) && |ll| <= L_CODES && |dl| <= D_CODES
    ensures Words(t, ll, dl, ks, n) ==
      Cost(Upto(|ll|), SymCounts(t, ks, n), ll) + Cost(Upto(|dl|), DistCounts(t, ks, n), dl)
  {
    hide Cost, GoodStatic, Upto, SymCounts, DistCounts;
    if n == 0 {
      NoCost(SymCounts(t, ks, 0), ll);
      NoCost(DistCounts(t, ks, 0), dl);
    } else {
      var k := ks[n - 1];
      assert GoodToken(k) && Coded(t, ll, dl, k);
      WordsCost(t, ll, dl, ks, n - 1);
      TableSizes(t);
      OneMoreCost(SymCounts(t, ks, n - 1), SymCounts(t, ks, n), ll, if k.dist == 0 then k.lc else LenSym(t, k));
      if k.dist == 0 {
        assert DistCounts(t, ks, n) == DistCounts(t, ks, n - 1);
      } else {
        OneMoreCost(DistCounts(t, ks, n - 1), DistCounts(t, ks, n), dl, DistSym(t, k));
      }
    }
  }

  /** Symbols that do not occur cost nothing. */
  lemma {:induction false} DropZeros(s: set<nat>, u: set<nat>, c: seq<int>, n: nat)
    requires n <= |c| && forall v :: 0 <= v < n ==> (v in u ==> v in s) && (v in s && v !in u ==> c[v] == 0)
    ensures Over(s, c, n) == Over(u, c, n)
  {
    if n != 0 {
      DropZeros(s, u, c, n - 1);
    }
  }

  lemma UsedCost(f: seq<nat>, l: seq<nat>)
    requires |l| <= |f|
    ensures Cost(Upto(|l|), f, l) == Cost(Used(f), f, l)
  {
    forall v | 0 <= v < |l| && v !in Used(f)
      ensures Costs(f, l)[v] == 0
    {
      PaidMore(0, l[v]);
    }
    DropZeros(Upto(|l|), Used(f), Costs(f, l), |l|);
  }

  /** The data part: what the symbols cost, and extra bits that no code changes. */
  lemma BlockLength(t: Static, ll: seq<nat>, dl: seq<nat>, ks: seq<Token>, f: seq<nat>, g: seq<nat>)
    requires AllCoded(t, ll, dl, ks) && GoodTokens(ks) && |ll| <= L_CODES && |dl| <= D_CODES
    requires Tallied(t, f, g, ks, |ks|)
    ensures |BlockBits(t, ll, dl, ks)| == Cost(Used(f), f, ll) + Cost(Used(g), g, dl) + Extras(t, ks, |ks|)
  {
    hide GoodStatic, Cost, Used, CodeBits, TokensBits, Upto;
    TokensLength(t, ll, dl, ks, |ks|);
    WordsCost(t, ll, dl, ks, |ks|);
    WordLength(ll, END_BLOCK);
    OneMoreCost(SymCounts(t, ks, |ks|), f, ll, END_BLOCK);
    assert g == DistCounts(t, ks, |ks|);
    UsedCost(f, ll);
    UsedCost(g, dl);
  }

  // ---------------------------------------------------------------- the comparison

  /** Lengths with a Kraft sum of at most one that code all symbols in use. */
  ghost predicate CodesAll(freq: seq<nat>, lens: seq<nat>) {
    && |lens| <= |freq| && ValidLengths(lens) && Kraft(lens, MAXBITS) <= Pow2(MAXBITS)
    && forall n :: n in Used(freq) ==> n < |lens| && lens[n] != 0
  }

  lemma {:induction false} KraftAtLeast(u: set<nat>, lens: seq<nat>, n: nat)
    requires ValidLengths(lens) && n <= |lens| && forall v :: v in u && v < |lens| ==> lens[v] != 0
    ensures Over(u, Spaces(lens, MAXBITS), n) <= Kraft(lens[..n], MAXBITS)
  {
    if n != 0 {
      KraftAtLeast(u, lens, n - 1);
      assert lens[..n][..n - 1] == lens[..n - 1] && lens[..n][n - 1] == lens[n - 1];
    }
  }

  lemma CodesFeasible(freq: seq<nat>, lens: seq<nat>)
    requires CodesAll(freq, lens)
    ensures Feasible(Used(freq), lens, MAXBITS)
  {
    hide Used, Kraft, Over, Shl;
    KraftAtLeast(Used(freq), lens, |lens|);
    assert lens[..|lens|] == lens;
  }

  lemma {:induction false} OverLess(s: set<nat>, c: seq<int>, d: seq<int>, n: nat)
    requires n <= |c| && n <= |d| && forall v :: 0 <= v < n && v in s ==> c[v] <= d[v]
    ensures Over(s, c, n) <= Over(s, d, n)
  {
    if n != 0 {
      OverLess(s, c, d, n - 1);
    }
  }

  /** Lengths of at most one cost least of all. */
  lemma OnesCheapest(freq: seq<nat>, lens: seq<nat>, other: seq<nat>)
    requires |lens| == |other| <= |freq| && (forall n :: 0 <= n < |lens| ==> lens[n] <= 1)
    requires forall n :: n in Used(freq) ==> n < |other| && other[n] != 0
    ensures Cost(Used(freq), freq, lens) <= Cost(Used(freq), freq, other)
  {
    forall v | 0 <= v < |lens| && v in Used(freq)
      ensures Costs(freq, lens)[v] <= Costs(freq, other)[v]
    {
      PaidLess(freq[v], lens[v], other[v]);
    }
    OverLess(Used(freq), Costs(freq, lens), Costs(freq, other), |lens|);
  }

  /** Lengths of any number of symbols. */
  lemma CheapestIsLess(freq: seq<nat>, lens: seq<nat>, other: seq<nat>)
    requires Cheapest(freq, lens, MAXBITS) && CodesAll(freq, other)
    requires Over(Used(freq), freq, |freq|) < Fib(MAXBITS + 3)
    ensures Cost(Used(freq), freq, lens) <= Cost(Used(freq), freq, other)
  {
    hide Cost, Used, Over, Fib, Feasible, Kraft;
    CodesFeasible(freq, other);
    var used := Used(freq);
    var n := if |lens| < |other| then |other| else |lens|;
    var a := lens + seq(n - |lens|, _ => 0);
    var b := other + seq(n - |other|, _ => 0);
    CostLonger(used, freq, lens, a);
    CostLonger(used, freq, other, b);
    FeasibleLonger(used, other, b, MAXBITS);
    if |used| < 2 {
      assert forall v :: v in used ==> v < |other| && b[v] == other[v];
      OnesCheapest(freq, a, b);
    } else {
      Cut(used, freq, lens, b);
    }
  }

  lemma Cut(used: set<nat>, freq: seq<nat>, lens: seq<nat>, b: seq<nat>)
    requires |lens| <= |b| <= |freq| && Members(used, |lens|) && Optimal(used, freq, lens) && Feasible(used, b, MAXBITS)
    ensures Cost(used, freq, lens) <= Cost(used, freq, b)
  {
    hide Cost;
    var short := b[..|lens|];
    CostLonger(used, freq, short, b);
    FeasibleShorter(used, short, b, MAXBITS);
  }

  lemma FeasibleShorter(s: set<nat>, l: seq<nat>, k: seq<nat>, b: nat)
    requires Feasible(s, k, b) && |l| <= |k| && k[..|l|] == l && Members(s, |l|)
    ensures Feasible(s, l, b)
  {
    hide Over;
    assert Spaces(k, b)[..|l|] == Spaces(l, b)[..|l|];
    OverLonger(s, Spaces(l, b), Spaces(k, b), |l|, |k|);
    forall v | v in s
      ensures l[v] <= b
    {
      assert k[v] == k[..|l|][v];
    }
  }

  // ---------------------------------------------------------------- few tokens

  lemma {:induction false} OverCounts(t: Static, ks: seq<Token>, n: nat, s: nat, m: nat, lit: bool)
    requires GoodStatic(t) && GoodTokens(ks) && n <= |ks| && m <= if lit then L_CODES else D_CODES
    ensures var c: seq<int> := if lit then SymCounts(t, ks, n) else DistCounts(t, ks, n);
      Over(Upto(m), c, m) <= n
    decreases n
  {
    hide GoodStatic;
    var c: seq<int> := if lit then SymCounts(t, ks, n) else DistCounts(t, ks, n);
    if n == 0 {
      OverZero(Upto(m), c, m);
    } else {
      OverCounts(t, ks, n - 1, s, m, lit);
      var d: seq<int> := if lit then SymCounts(t, ks, n - 1) else DistCounts(t, ks, n - 1);
      OneMoreAtMost(c, d, m);
    }
  }

  /** At most one entry has grown, by one. */
  lemma OneMoreAtMost(c: seq<int>, d: seq<int>, m: nat)
    requires m <= |c| == |d| && forall v :: 0 <= v < m ==> d[v] <= c[v] <= d[v] + 1
    requires forall v, w :: 0 <= v < w < m && c[v] != d[v] ==> c[w] == d[w]
    ensures Over(Upto(m), c, m) <= Over(Upto(m), d, m) + 1
  {
    if v :| 0 <= v < m && c[v] != d[v] {
      TakeOut(Upto(m), c, m, v);
      TakeOut(Upto(m), d, m, v);
      Agree(Upto(m) - {v}, Upto(m) - {v}, c, d, m);
    } else {
      Agree(Upto(m), Upto(m), c, d, m);
    }
  }

  lemma {:induction false} SomeToken(t: Static, ks: seq<Token>, n: nat, s: nat) returns (i: nat)
    requires GoodStatic(t) && GoodTokens(ks) && n <= |ks| && SymCount(t, ks, n, s) != 0
    ensures i < n && HasSym(t, ks[i], s)
  {
    hide GoodStatic, HasSym;
    if HasSym(t, ks[n - 1], s) {
      i := n - 1;
    } else {
      i := SomeToken(t, ks, n - 1, s);
    }
  }

  lemma {:induction false} SomeMatch(t: Static, ks: seq<Token>, n: nat, d: nat) returns (i: nat)
    requires GoodStatic(t) && GoodTokens(ks) && n <= |ks| && DistCount(t, ks, n, d) != 0
    ensures i < n && HasDist(t, ks[i], d)
  {
    hide GoodStatic, HasDist;
    if HasDist(t, ks[n - 1], d) {
      i := n - 1;
    } else {
      i := SomeMatch(t, ks, n - 1, d);
    }
  }

  lemma CountedCoded(t: Static, ll: seq<nat>, dl: seq<nat>, ks: seq<Token>, f: seq<nat>, g: seq<nat>)
    requires AllCoded(t, ll, dl, ks) && GoodTokens(ks) && Tallied(t, f, g, ks, |ks|)
    ensures forall n :: n in Used(f) ==> n < |ll| && ll[n] != 0
    ensures forall n :: n in Used(g) ==> n < |dl| && dl[n] != 0
  {
    TableSizes(t);
    hide GoodStatic, SymCount, DistCount;
    forall n | n in Used(f) && n != END_BLOCK
      ensures n < |ll| && ll[n] != 0
    {
      var i := SomeToken(t, ks, |ks|, n);
      assert Coded(t, ll, dl, ks[i]);
    }
    forall n | n in Used(g)
      ensures n < |dl| && dl[n] != 0
    {
      var i := SomeMatch(t, ks, |ks|, n);
      assert Coded(t, ll, dl, ks[i]);
    }
  }

  lemma FibLimit()
    ensures Fib(MAXBITS + 3) == 2584
  {
    assert Fib(2) == 1 && Fib(3) == 2 && Fib(4) == 3 && Fib(5) == 5 && Fib(6) == 8 && Fib(7) == 13;
    assert Fib(8) == 21 && Fib(9) == 34 && Fib(10) == 55 && Fib(11) == 89 && Fib(12) == 144 && Fib(13) == 233;
    assert Fib(14) == 377 && Fib(15) == 610 && Fib(16) == 987 && Fib(17) == 1597 && Fib(18) == 2584;
  }

  /** The frequencies add up to the number of tokens, and one for the end of the block. */
  lemma FewTokens(t: Static, ks: seq<Token>, f: seq<nat>, g: seq<nat>)
    requires GoodStatic(t) && GoodTokens(ks) && Tallied(t, f, g, ks, |ks|)
    ensures Over(Used(f), f, |f|) <= |ks| + 1 && Over(Used(g), g, |g|) <= |ks|
  {
    hide GoodStatic, SymCount, DistCount, Over;
    var a, b := SymCounts(t, ks, |ks|), DistCounts(t, ks, |ks|);
    OverCounts(t, ks, |ks|, 0, L_CODES, true);
    OverCounts(t, ks, |ks|, 0, D_CODES, false);
    assert g == b;
    OneMoreAtMost(f, a, L_CODES);
    DropZeros(Upto(L_CODES), Used(f), f, L_CODES);
    DropZeros(Upto(D_CODES), Used(g), g, D_CODES);
  }

  /** A block of fewer than 2583 tokens: no codes for literals, lengths and distances give a
      shorter data part than those that `build_tree` made. */
  lemma ShortestData(t: Static, c: Codes, ks: seq<Token>, ll: seq<nat>, dl: seq<nat>, f: seq<nat>, g: seq<nat>)
    requires GoodTokens(ks) && |ks| < 2583 && AllCoded(t, c.ll, c.dl, ks) && MadeFor(t, c, ks)
    requires Tallied(t, f, g, ks, |ks|)
    requires AllCoded(t, ll, dl, ks) && PrefixCode(ll) && PrefixCode(dl) && |ll| <= L_CODES && |dl| <= D_CODES
    ensures |BlockBits(t, c.ll, c.dl, ks)| <= |BlockBits(t, ll, dl, ks)|
  {
    CountedCoded(t, ll, dl, ks, f, g);
    hide GoodStatic, Tallied, Cost, Used, Over, Fib, BlockBits, Coded, Kraft, Optimal;
    FewTokens(t, ks, f, g);
    FibLimit();
    TalliedSizes(t, f, g, ks);
    CheapestIsLess(f, c.ll, ll);
    CheapestIsLess(g, c.dl, dl);
    BlockLength(t, c.ll, c.dl, ks, f, g);
    BlockLength(t, ll, dl, ks, f, g);
  }

  lemma TalliedSizes(t: Static, f: seq<nat>, g: seq<nat>, ks: seq<Token>)
    requires GoodStatic(t) && GoodTokens(ks) && Tallied(t, f, g, ks, |ks|)
    ensures |f| == L_CODES && |g| == D_CODES
  {
  }
}

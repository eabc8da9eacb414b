/** The canonical prefix code of section 3.2.2 of RFC 1951.

    A code is given by one length per symbol (0 for an unused symbol). Sorting the
    used symbols by (length, symbol) and laying their intervals of size
    `2^(15 - length)` end to end over `[0, 2^15)` gives every symbol its code: the
    leading `length` bits of the start of its interval. Deflate sends codes with
    the first bit lowest, so the code word of the k-th symbol is the reversal of
    its start. */
module Canonical {
  import opened Bits

  const MAXBITS: nat := 15

  ghost predicate ValidLengths(lens: seq<nat>) {
    forall i :: 0 <= i < |lens| ==> lens[i] <= MAXBITS
  }

  // ---------------------------------------------------------------- sorted symbols

  /** The symbols of length `l`, in increasing order. */
  function Filter(lens: seq<nat>, l: nat): seq<nat> {
    if |lens| == 0 then []
    else
      var n := |lens| - 1;
      var rest := Filter(lens[..n], l);
      if lens[n] == l then rest + [n] else rest
  }

  /** The symbols of lengths 1..l, sorted by length and then by symbol. */
  function Order(lens: seq<nat>, l: nat): seq<nat> {
    if l == 0 then [] else Order(lens, l - 1) + Filter(lens, l)
  }

  lemma {:induction false} FilterFacts(lens: seq<nat>, l: nat)
    ensures forall i :: 0 <= i < |Filter(lens, l)| ==>
              Filter(lens, l)[i] < |lens| && lens[Filter(lens, l)[i]] == l
    ensures |Filter(lens, l)| <= |lens|
  {
    if |lens| != 0 {
      FilterFacts(lens[..|lens| - 1], l);
    }
  }

  lemma {:induction false} OrderFacts(lens: seq<nat>, l: nat)
    ensures forall i :: 0 <= i < |Order(lens, l)| ==>
              Order(lens, l)[i] < |lens| && 1 <= lens[Order(lens, l)[i]] <= l
    ensures forall i, j :: 0 <= i < j < |Order(lens, l)| ==>
              lens[Order(lens, l)[i]] <= lens[Order(lens, l)[j]]
  {
    if l != 0 {
      OrderFacts(lens, l - 1);
      FilterFacts(lens, l);
    }
  }

  lemma {:induction false} OrderPrefix(lens: seq<nat>, l: nat, m: nat)
    requires l <= m
    ensures Order(lens, l) <= Order(lens, m)
  {
    if l < m {
      OrderPrefix(lens, l, m - 1);
    }
  }

  /** Behind the symbols of lengths 1..l come only longer ones. */
  lemma {:induction false} OrderSuffix(lens: seq<nat>, l: nat, m: nat)
    requires l <= m
    ensures Order(lens, l) <= Order(lens, m)
    ensures forall i :: |Order(lens, l)| <= i < |Order(lens, m)| ==>
              Order(lens, m)[i] < |lens| && l < lens[Order(lens, m)[i]]
  {
    if l < m {
      OrderSuffix(lens, l, m - 1);
      FilterFacts(lens, m);
    }
  }

  lemma {:induction false} FilterPrefix(lens: seq<nat>, s: nat, l: nat)
    requires s <= |lens|
    ensures Filter(lens[..s], l) <= Filter(lens, l)
  {
    if s < |lens| {
      assert lens[..|lens| - 1][..s] == lens[..s];
      FilterPrefix(lens[..|lens| - 1], s, l);
    } else {
      assert lens[..s] == lens;
    }
  }

  lemma {:induction false} OrderLength(lens: seq<nat>, m: nat)
    requires m <= MAXBITS
    ensures |Order(lens, m)| + CountAbove(lens, m) <= |lens|
  {
    if m == 0 {
      CountAboveAll(lens, 0);
    } else {
      OrderLength(lens, m - 1);
      CountAboveStep(lens, m - 1);
    }
  }

  /** How many symbols are longer than `m`. */
  ghost function CountAbove(lens: seq<nat>, m: nat): nat {
    if |lens| == 0 then 0
    else CountAbove(lens[..|lens| - 1], m) + if lens[|lens| - 1] > m then 1 else 0
  }

  lemma {:induction false} CountAboveAll(lens: seq<nat>, m: nat)
    ensures CountAbove(lens, m) <= |lens|
  {
    if |lens| != 0 {
      CountAboveAll(lens[..|lens| - 1], m);
    }
  }

  lemma {:induction false} CountAboveStep(lens: seq<nat>, m: nat)
    ensures CountAbove(lens, m) == CountAbove(lens, m + 1) + |Filter(lens, m + 1)|
  {
    if |lens| != 0 {
      CountAboveStep(lens[..|lens| - 1], m);
    }
  }

  /** Where symbol `s` stands among the sorted symbols. */
  function Rank(lens: seq<nat>, s: nat): nat
    requires s < |lens| && lens[s] != 0
  {
    |Order(lens, lens[s] - 1)| + |Filter(lens[..s], lens[s])|
  }

  lemma RankInOrder(lens: seq<nat>, s: nat)
    requires ValidLengths(lens) && s < |lens| && lens[s] != 0
    ensures Rank(lens, s) < |Order(lens, MAXBITS)|
    ensures Order(lens, MAXBITS)[Rank(lens, s)] == s
  {
    var l := lens[s];
    FilterPrefix(lens, s + 1, l);
    assert lens[..s + 1][..s] == lens[..s];
    assert Filter(lens[..s + 1], l) == Filter(lens[..s], l) + [s];
    OrderPrefix(lens, l, MAXBITS);
  }

  /** The lengths of the sorted symbols. */
  function SortedLens(lens: seq<nat>): (ls: seq<nat>)
    ensures |ls| == |Order(lens, MAXBITS)|
  {
    OrderFacts(lens, MAXBITS);
    seq(|Order(lens, MAXBITS)|, k requires 0 <= k < |Order(lens, MAXBITS)| => lens[Order(lens, MAXBITS)[k]])
  }

  ghost predicate Sorted(ls: seq<nat>) {
    && (forall i :: 0 <= i < |ls| ==> 1 <= ls[i] <= MAXBITS)
    && (forall i, j :: 0 <= i < j < |ls| ==> ls[i] <= ls[j])
  }

  lemma SortedLensFacts(lens: seq<nat>)
    ensures Sorted(SortedLens(lens))
    ensures forall k :: 0 <= k < |SortedLens(lens)| ==>
              Order(lens, MAXBITS)[k] < |lens| && SortedLens(lens)[k] == lens[Order(lens, MAXBITS)[k]]
  {
    OrderFacts(lens, MAXBITS);
  }

  // ---------------------------------------------------------------- interval layout

  /** Size of the interval of a symbol with code length `l`. */
  function Weight(l: nat): nat
    requires l <= MAXBITS
  {
    Pow2(MAXBITS - l)
  }

  /** Start of the interval of the k-th sorted symbol. */
  function Start(ls: seq<nat>, k: nat): nat
    requires k <= |ls|
    requires forall i :: 0 <= i < |ls| ==> ls[i] <= MAXBITS
  {
    if k == 0 then 0 else Start(ls, k - 1) + Weight(ls[k - 1])
  }

  /** The intervals fit into `[0, 2^15)`: the lengths are not over-subscribed. */
  ghost predicate Fits(ls: seq<nat>) {
    Sorted(ls) && Start(ls, |ls|) <= Pow2(MAXBITS)
  }

  /** The intervals fill `[0, 2^15)`: the Kraft sum is exactly one. */
  ghost predicate Complete(ls: seq<nat>) {
    Sorted(ls) && Start(ls, |ls|) == Pow2(MAXBITS)
  }

  /** Code word of the k-th sorted symbol, first bit lowest. */
  function Huff(ls: seq<nat>, k: nat): nat
    requires k <= |ls|
    requires forall i :: 0 <= i < |ls| ==> ls[i] <= MAXBITS
  {
    Rev(Start(ls, k), MAXBITS)
  }

  lemma {:induction false} StartMono(ls: seq<nat>, j: nat, k: nat)
    requires Sorted(ls) && j <= k <= |ls|
    ensures Start(ls, j) <= Start(ls, k)
    ensures j < k ==> Start(ls, j) + Weight(ls[j]) <= Start(ls, k)
  {
    if j < k {
      StartMono(ls, j, k - 1);
    }
  }

  lemma StartBound(ls: seq<nat>, k: nat)
    requires Fits(ls) && k < |ls|
    ensures Start(ls, k) + Weight(ls[k]) <= Pow2(MAXBITS)
    ensures Start(ls, k) < Pow2(MAXBITS)
  {
    StartMono(ls, k, |ls|);
    Pow2Mono(0, MAXBITS - ls[k]);
  }

  /** An interval starts at a multiple of every smaller interval size. */
  lemma {:induction false} Aligned(ls: seq<nat>, k: nat, l: nat)
    requires Sorted(ls) && k <= |ls| && l <= MAXBITS
    requires forall i :: 0 <= i < k ==> ls[i] <= l
    ensures Start(ls, k) == Shl(Shr(Start(ls, k), MAXBITS - l), MAXBITS - l)
  {
    var d := MAXBITS - l;
    if k == 0 {
      ShlMono(0, 1, d);
      LowSmall(0, d);
      ShlZero(d);
    } else {
      Aligned(ls, k - 1, l);
      var m := ls[k - 1];
      ShlShl(1, l - m, d);
      var q := Shr(Start(ls, k - 1), d) + Pow2(l - m);
      ShlAdd(Shr(Start(ls, k - 1), d), Pow2(l - m), d);
      ShlMono(0, 1, d);
      SplitUnique(0, q, d);
    }
  }

  /** The code word is the reversal of the first `ls[k]` bits of the start. */
  lemma HuffCode(ls: seq<nat>, k: nat)
    requires Sorted(ls) && k < |ls|
    ensures Huff(ls, k) == Rev(Shr(Start(ls, k), MAXBITS - ls[k]), ls[k])
    ensures Huff(ls, k) < Pow2(ls[k])
  {
    Aligned(ls, k, ls[k]);
    var c := Shr(Start(ls, k), MAXBITS - ls[k]);
    RevScaled(c, ls[k], MAXBITS);
    RevBound(c, ls[k]);
  }

  /** Cut to the length of an earlier symbol, a later start is strictly larger. */
  lemma LaterPrefix(ls: seq<nat>, j: nat, k: nat)
    requires Sorted(ls) && j < k < |ls|
    ensures Shr(Start(ls, j), MAXBITS - ls[j]) < Shr(Start(ls, k), MAXBITS - ls[j])
  {
    hide Start, Shl, Shr;
    Aligned(ls, j, ls[j]);
    StartMono(ls, j, k);
    LaterBlock(Start(ls, j), Start(ls, k), MAXBITS - ls[j]);
  }

  /** No code word is a prefix of a later one. */
  lemma PrefixFree(ls: seq<nat>, j: nat, k: nat)
    requires Fits(ls) && j < k < |ls|
    ensures Low(Huff(ls, k), ls[j]) != Huff(ls, j)
  {
    var l := ls[j];
    var d := MAXBITS - l;
    var a, b := Shr(Start(ls, j), d), Shr(Start(ls, k), d);
    assert a < b by { LaterPrefix(ls, j, k); }
    assert a < Pow2(l) by { StartBound(ls, j); ShrBound(Start(ls, j), d, l); }
    assert b < Pow2(l) by { StartBound(ls, k); ShrBound(Start(ls, k), d, l); }
    assert Huff(ls, j) == Rev(a, l) by { HuffCode(ls, j); }
    assert Low(Huff(ls, k), l) == Rev(b, l) by { RevPrefix(Start(ls, k), MAXBITS, l); }
    if Rev(a, l) == Rev(b, l) {
      RevInjective(a, b, l);
    }
  }

  /** The symbol whose interval holds `x`. */
  lemma {:induction false} IntervalOf(ls: seq<nat>, n: nat, x: nat) returns (k: nat)
    requires Sorted(ls) && n <= |ls| && x < Start(ls, n)
    ensures k < n && Start(ls, k) <= x < Start(ls, k) + Weight(ls[k])
  {
    if x < Start(ls, n - 1) {
      k := IntervalOf(ls, n - 1, x);
    } else {
      k := n - 1;
    }
  }

  /** With a complete code, every bit string starts with a code word. */
  lemma Covered(ls: seq<nat>, hold: nat) returns (k: nat)
    requires Complete(ls)
    ensures k < |ls| && Low(hold, ls[k]) == Huff(ls, k)
  {
    var x := Rev(hold, MAXBITS);
    RevBound(hold, MAXBITS);
    k := IntervalOf(ls, |ls|, x);
    var d := MAXBITS - ls[k];
    HuffCode(ls, k);
    Aligned(ls, k, ls[k]);
    ShrBlock(x, Shr(Start(ls, k), d), d);
    // Reversing x gives back the low bits of hold.
    RevPrefix(x, MAXBITS, ls[k]);
    Split(hold, MAXBITS);
    RevLow(hold, MAXBITS);
    RevRev(Low(hold, MAXBITS), MAXBITS);
    LowSplit(hold, ls[k], d);
  }

  // ---------------------------------------------------------------- Kraft sum

  /** Kraft sum of the lengths 1..m, in units of `2^-15`. */
  function Kraft(lens: seq<nat>, m: nat): nat
    requires ValidLengths(lens)
  {
    if |lens| == 0 then 0
    else
      var l := lens[|lens| - 1];
      Kraft(lens[..|lens| - 1], m) + (if 1 <= l <= m then Weight(l) else 0)
  }

  lemma {:induction false} KraftStep(lens: seq<nat>, m: nat)
    requires ValidLengths(lens) && m < MAXBITS
    ensures Kraft(lens, m + 1) == Kraft(lens, m) + Shl(|Filter(lens, m + 1)|, MAXBITS - m - 1)
  {
    if |lens| == 0 {
      ShlZero(MAXBITS - m - 1);
    } else {
      var init := lens[..|lens| - 1];
      KraftStep(init, m);
      ShlAdd(|Filter(init, m + 1)|, 1, MAXBITS - m - 1);
    }
  }

  lemma {:induction false} KraftUpdate(lens: seq<nat>, n: nat, b: nat, m: nat)
    requires ValidLengths(lens) && n < |lens| && lens[n] == 0 && 1 <= b <= m <= MAXBITS
    ensures ValidLengths(lens[n := b]) && Kraft(lens[n := b], m) == Kraft(lens, m) + Weight(b)
  {
    var last := |lens| - 1;
    if n == last {
      assert lens[n := b][..last] == lens[..last];
    } else {
      KraftUpdate(lens[..last], n, b, m);
      assert lens[n := b][..last] == lens[..last][n := b];
    }
  }

  lemma {:induction false} FilterUpdate(lens: seq<nat>, n: nat, b: nat, l: nat)
    requires n < |lens| && lens[n] == 0 && 1 <= b && 1 <= l
    ensures |Filter(lens[n := b], l)| == |Filter(lens, l)| + if l == b then 1 else 0
  {
    var last := |lens| - 1;
    if n == last {
      assert lens[n := b][..last] == lens[..last];
    } else {
      FilterUpdate(lens[..last], n, b, l);
      assert lens[n := b][..last] == lens[..last][n := b];
    }
  }

  lemma {:induction false} KraftNone(lens: seq<nat>)
    requires ValidLengths(lens)
    ensures Kraft(lens, 0) == 0
  {
    if |lens| != 0 {
      KraftNone(lens[..|lens| - 1]);
    }
  }

  /** A run of `c` equal lengths advances the start by `c` intervals. */
  lemma {:induction false} StartRun(ls: seq<nat>, k: nat, c: nat, l: nat)
    requires Sorted(ls) && k + c <= |ls| && l <= MAXBITS
    requires forall i :: k <= i < k + c ==> ls[i] == l
    ensures Start(ls, k + c) == Start(ls, k) + Shl(c, MAXBITS - l)
  {
    if c == 0 {
      ShlZero(MAXBITS - l);
    } else {
      StartRun(ls, k, c - 1, l);
      ShlAdd(c - 1, 1, MAXBITS - l);
    }
  }

  /** The sorted symbols of length `l` are one block of equal lengths. */
  lemma BlockLengths(lens: seq<nat>, l: nat)
    requires 1 <= l <= MAXBITS
    ensures |Order(lens, l)| == |Order(lens, l - 1)| + |Filter(lens, l)| <= |SortedLens(lens)|
    ensures forall i :: |Order(lens, l - 1)| <= i < |Order(lens, l)| ==> SortedLens(lens)[i] == l
  {
    OrderPrefix(lens, l, MAXBITS);
    FilterFacts(lens, l);
    var b := |Order(lens, l - 1)|;
    forall i | b <= i < |Order(lens, l)|
      ensures SortedLens(lens)[i] == l
    {
      assert Order(lens, MAXBITS)[i] == Order(lens, l)[i] == Filter(lens, l)[i - b];
    }
  }

  lemma StartOfNone(lens: seq<nat>)
    requires ValidLengths(lens)
    ensures |Order(lens, 0)| == 0 == Kraft(lens, 0)
    ensures Sorted(SortedLens(lens)) && Start(SortedLens(lens), 0) == 0
  {
    SortedLensFacts(lens);
    KraftNone(lens);
  }

  /** The layout of lengths 1..m ends at their Kraft sum. */
  lemma {:induction false} StartIsKraft(lens: seq<nat>, m: nat)
    requires ValidLengths(lens) && m <= MAXBITS
    ensures |Order(lens, m)| <= |SortedLens(lens)|
    ensures Sorted(SortedLens(lens))
    ensures Start(SortedLens(lens), |Order(lens, m)|) == Kraft(lens, m)
  {
    hide Order, Filter, SortedLens, Kraft, Start, Shl, Sorted, ValidLengths;
    SortedLensFacts(lens);
    if m == 0 {
      StartOfNone(lens);
    } else {
      StartIsKraft(lens, m - 1);
      KraftStep(lens, m - 1);
      BlockLengths(lens, m);
      StartRun(SortedLens(lens), |Order(lens, m - 1)|, |Filter(lens, m)|, m);
    }
  }

  // ---------------------------------------------------------------- RFC 1951 code values

  /** First code value of length `l`: the `next_code` recurrence of the RFC. */
  function FirstCode(lens: seq<nat>, l: nat): nat {
    if l == 0 then 0
    else 2 * (FirstCode(lens, l - 1) + if l == 1 then 0 else |Filter(lens, l - 1)|)
  }

  /** The code value the RFC gives to symbol `s`: consecutive values for the
      symbols of one length. */
  function CodeValue(lens: seq<nat>, s: nat): nat
    requires s < |lens|
  {
    FirstCode(lens, lens[s]) + |Filter(lens[..s], lens[s])|
  }

  lemma {:induction false} FirstCodeIsStart(lens: seq<nat>, l: nat)
    requires ValidLengths(lens) && 1 <= l <= MAXBITS
    ensures Kraft(lens, l - 1) == Shl(FirstCode(lens, l), MAXBITS - l)
  {
    var d := MAXBITS - l;
    if l == 1 {
      KraftNone(lens);
      ShlZero(d);
      assert FirstCode(lens, 0) == 0;
    } else {
      FirstCodeIsStart(lens, l - 1);
      KraftStep(lens, l - 2);
      var a, c := FirstCode(lens, l - 1), |Filter(lens, l - 1)|;
      ShlAdd(a, c, d + 1);
      ShlShl(a + c, 1, d);
      assert Shl(a + c, 1) == 2 * Shl(a + c, 0) == 2 * (a + c);
    }
  }

  /** The interval layout and the RFC recurrence give the same code words. */
  lemma HuffIsCodeValue(lens: seq<nat>, s: nat)
    requires ValidLengths(lens) && s < |lens| && lens[s] != 0
    ensures Rank(lens, s) < |SortedLens(lens)|
    ensures Sorted(SortedLens(lens)) && SortedLens(lens)[Rank(lens, s)] == lens[s]
    ensures Huff(SortedLens(lens), Rank(lens, s)) == Rev(CodeValue(lens, s), lens[s])
  {
    hide Order, Filter, SortedLens, Kraft, Start, Rev, FirstCode, Shl, Sorted;
    var ls, l := SortedLens(lens), lens[s];
    var b, r := |Order(lens, l - 1)|, |Filter(lens[..s], l)|;
    RankInOrder(lens, s);
    SortedLensFacts(lens);
    StartIsKraft(lens, l - 1);
    FirstCodeIsStart(lens, l);
    FilterPrefix(lens, s, l);
    BlockLengths(lens, l);
    StartRun(ls, b, r, l);
    ShlAdd(FirstCode(lens, l), r, MAXBITS - l);
    RevScaled(CodeValue(lens, s), l, MAXBITS);
  }

  // ---------------------------------------------------------------- the two rules of the RFC

  lemma {:induction false} NoneBetween(lens: seq<nat>, l: nat, a: nat, b: nat)
    requires a <= b <= |lens| && forall c :: a <= c < b ==> lens[c] != l
    ensures |Filter(lens[..b], l)| == |Filter(lens[..a], l)|
  {
    if a < b {
      assert lens[..b][..b - 1] == lens[..b - 1];
      NoneBetween(lens, l, a, b - 1);
    }
  }

  lemma OneMore(lens: seq<nat>, a: nat)
    requires a < |lens|
    ensures |Filter(lens[..a + 1], lens[a])| == |Filter(lens[..a], lens[a])| + 1 <= |Filter(lens, lens[a])|
  {
    assert lens[..a + 1][..a] == lens[..a];
    FilterPrefix(lens, a + 1, lens[a]);
  }

  /** Codes of one length have consecutive values, in the order of their symbols. */
  lemma Consecutive(lens: seq<nat>, a: nat, b: nat)
    requires a < b < |lens| && lens[a] == lens[b] && forall c :: a < c < b ==> lens[c] != lens[a]
    ensures CodeValue(lens, b) == CodeValue(lens, a) + 1
  {
    hide FirstCode, Filter;
    OneMore(lens, a);
    NoneBetween(lens, lens[a], a + 1, b);
  }

  lemma {:induction false} FirstCodeGrows(lens: seq<nat>, l: nat, m: nat)
    requires 1 <= l < m
    ensures Shl(FirstCode(lens, l) + |Filter(lens, l)|, m - l) <= FirstCode(lens, m)
  {
    var x := FirstCode(lens, l) + |Filter(lens, l)|;
    if l + 1 < m {
      FirstCodeGrows(lens, l, m - 1);
      assert Shl(x, m - l) == 2 * Shl(x, m - 1 - l);
    } else {
      assert Shl(x, 1) == 2 * x;
    }
  }

  /** Shorter codes come before longer ones: cut to the shorter length, the longer word is
      greater. */
  lemma ShorterFirst(lens: seq<nat>, a: nat, b: nat)
    requires a < |lens| && b < |lens| && 1 <= lens[a] < lens[b]
    ensures Shl(CodeValue(lens, a) + 1, lens[b] - lens[a]) <= CodeValue(lens, b)
  {
    hide FirstCode, Filter, Shl;
    OneMore(lens, a);
    FirstCodeGrows(lens, lens[a], lens[b]);
    ShlMono(CodeValue(lens, a) + 1, FirstCode(lens, lens[a]) + |Filter(lens, lens[a])|, lens[b] - lens[a]);
  }

  /** The first of the shortest codes is all zeros. */
  lemma FirstIsZero(lens: seq<nat>, a: nat)
    requires a < |lens| && 1 <= lens[a]
    requires forall c :: 0 <= c < |lens| && lens[c] != 0 ==> lens[a] < lens[c] || (lens[a] == lens[c] && a <= c)
    ensures CodeValue(lens, a) == 0
  {
    NoneBetween(lens, lens[a], 0, a);
    NothingShorter(lens, lens[a]);
  }

  lemma {:induction false} NothingShorter(lens: seq<nat>, l: nat)
    requires forall c :: 0 <= c < |lens| && lens[c] != 0 ==> l <= lens[c]
    ensures FirstCode(lens, l) == 0
  {
    if l > 1 {
      NothingShorter(lens, l - 1);
      NoneBetween(lens, l - 1, 0, |lens|);
      assert lens[..|lens|] == lens;
    }
  }
}

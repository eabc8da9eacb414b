/** Run-length coding of code lengths: `scan_tree` and `send_tree` of lib/libgz/trees.c, and
    what the CODELENS state of lib/libgz/inflate.c makes of the symbols sent (section 3.2.7
    of RFC 1951). */
module CodeLengths {
  import opened Common
  import opened Bits
  import opened Canonical
  import opened BitIO
  import opened InflateTable
  import opened Symbols
  import opened Reference
  import opened InflateSteps

  const REP_3_6: nat := 16
  const REPZ_3_10: nat := 17
  const REPZ_11_138: nat := 18
  const GUARD: nat := 0xffff

  /** A symbol of the code length code with its extra bits. */
  datatype Item = Item(sym: nat, extra: nat)

  ghost predicate GoodItem(it: Item) {
    it.sym <= 18 && it.extra < Pow2(RunBits(it.sym)) && (it.sym < 16 ==> it.extra == 0)
  }

  // ---------------------------------------------------------------- decoding

  /** The lengths behind `pre` that one symbol stands for. */
  function Apply(pre: seq<nat>, it: Item): seq<nat> {
    if it.sym < 16 then pre + Repeat(it.sym, 1)
    else if it.sym == REP_3_6 then
      if |pre| == 0 then pre else pre + Repeat(pre[|pre| - 1], 3 + it.extra)
    else if it.sym == REPZ_3_10 then pre + Repeat(0, 3 + it.extra)
    else pre + Repeat(0, 11 + it.extra)
  }

  function Unroll(pre: seq<nat>, items: seq<Item>): seq<nat>
    decreases |items|
  {
    if |items| == 0 then pre else Unroll(Apply(pre, items[0]), items[1..])
  }

  lemma {:induction false} UnrollAppend(pre: seq<nat>, a: seq<Item>, b: seq<Item>)
    ensures Unroll(pre, a + b) == Unroll(Unroll(pre, a), b)
    decreases |a|
  {
    if |a| == 0 {
      assert a + b == b;
    } else {
      assert (a + b)[1..] == a[1..] + b;
      UnrollAppend(Apply(pre, a[0]), a[1..], b);
    }
  }

  // ---------------------------------------------------------------- encoding

  /** Longest run and shortest run worth a repeat symbol, for length `next` after `prev`. */
  function MaxCount(prev: int, next: nat): nat {
    if next == 0 then 138 else if prev == next then 6 else 7
  }

  function MinCount(prev: int, next: nat): nat {
    if next == 0 || prev == next then 3 else 4
  }

  function Copies(cur: nat, count: nat): (r: seq<Item>) {
    seq(count, _ => Item(cur, 0))
  }

  /** The symbols for `count` lengths `cur` after a length `prev`. */
  function RunItems(cur: nat, count: nat, prev: int): seq<Item>
    requires 1 <= count
  {
    if count < MinCount(prev, cur) then Copies(cur, count)
    else if cur != 0 then
      if cur != prev then [Item(cur, 0), Item(REP_3_6, count - 4)] else [Item(REP_3_6, count - 3)]
    else if count <= 10 then [Item(REPZ_3_10, count - 3)]
    else [Item(REPZ_11_138, count - 11)]
  }

  /** Length `n`, or the guard behind the last one. */
  function At0(lens: seq<nat>, n: nat): nat {
    if n < |lens| then lens[n] else GUARD
  }

  /** The symbols for the lengths from `n` on, `count` equal ones before them still unsent. */
  function Items(lens: seq<nat>, n: nat, count: nat, prev: int): seq<Item>
    requires n <= |lens|
    decreases |lens| - n
  {
    if n == |lens| then []
    else
      var cur, next := lens[n], At0(lens, n + 1);
      if count + 1 < MaxCount(prev, cur) && cur == next then Items(lens, n + 1, count + 1, prev)
      else RunItems(cur, count + 1, prev) + Items(lens, n + 1, 0, cur)
  }

  /** All symbols for `lens`. */
  function Encoded(lens: seq<nat>): seq<Item> {
    Items(lens, 0, 0, -1)
  }

  lemma {:induction false} CopiesUnroll(pre: seq<nat>, cur: nat, count: nat)
    requires cur < 16
    ensures Unroll(pre, Copies(cur, count)) == pre + Repeat(cur, count)
    decreases count
  {
    if count == 0 {
      assert Copies(cur, 0) == [] && pre + Repeat(cur, 0) == pre;
    } else {
      assert Copies(cur, count)[1..] == Copies(cur, count - 1);
      CopiesUnroll(pre + Repeat(cur, 1), cur, count - 1);
      assert pre + Repeat(cur, 1) + Repeat(cur, count - 1) == pre + Repeat(cur, count);
    }
  }

  /** What the lengths before a run must be. */
  predicate Follows(pre: seq<nat>, prev: int) {
    prev >= 0 ==> |pre| > 0 && pre[|pre| - 1] == prev
  }

  lemma RunUnrolls(pre: seq<nat>, cur: nat, count: nat, prev: int)
    requires cur < 16 && 1 <= count <= MaxCount(prev, cur) && Follows(pre, prev)
    ensures Unroll(pre, RunItems(cur, count, prev)) == pre + Repeat(cur, count)
  {
    if count < MinCount(prev, cur) {
      CopiesUnroll(pre, cur, count);
    } else if cur != 0 && cur != prev {
      var a := Item(cur, 0);
      var b := Item(REP_3_6, count - 4);
      assert [a, b][1..] == [b] && [b][1..] == [];
      assert Unroll(pre, [a, b]) == Unroll(Apply(pre, a), [b]) == Apply(Apply(pre, a), b);
      assert pre + Repeat(cur, 1) + Repeat(cur, count - 1) == pre + Repeat(cur, count);
    } else {
      var it := RunItems(cur, count, prev)[0];
      assert [it][1..] == [];
      assert Unroll(pre, [it]) == Apply(pre, it);
    }
  }

  lemma IsRun(lens: seq<nat>, n: nat, count: nat)
    requires n < |lens| && 1 <= count <= n + 1 && forall i :: n + 1 - count <= i < n ==> lens[i] == lens[n]
    ensures lens[..n + 1] == lens[..n + 1 - count] + Repeat(lens[n], count)
  {
  }

  /** The decoder gets back the lengths, whatever it has read before. */
  lemma {:induction false} ItemsUnroll(pre: seq<nat>, lens: seq<nat>, n: nat, count: nat, prev: int)
    requires ValidLengths(lens) && count <= n <= |lens|
    requires n < |lens| ==> count < MaxCount(prev, lens[n])
    requires n == |lens| ==> count == 0
    requires forall i :: n - count <= i < n ==> lens[i] == lens[n]
    requires prev < 16 && Follows(lens[..n - count], prev)
    ensures Unroll(pre + lens[..n - count], Items(lens, n, count, prev)) == pre + lens
    decreases |lens| - n
  {
    hide RunItems, Apply, Repeat, Unroll;
    if n == |lens| {
      assert lens[..n - count] == lens;
      NoItems([], pre + lens);
    } else {
      var cur, next := lens[n], At0(lens, n + 1);
      if count + 1 < MaxCount(prev, cur) && cur == next {
        ItemsUnroll(pre, lens, n + 1, count + 1, prev);
      } else {
        var before := lens[..n - count];
        IsRun(lens, n, count + 1);
        RunUnrolls(pre + before, cur, count + 1, prev);
        assert pre + before + Repeat(cur, count + 1) == pre + lens[..n + 1];
        UnrollAppend(pre + before, RunItems(cur, count + 1, prev), Items(lens, n + 1, 0, cur));
        ItemsUnroll(pre, lens, n + 1, 0, cur);
      }
    }
  }

  /** Decoding the symbols of two lists of lengths, one after the other, gives both lists. */
  lemma TwoTrees(a: seq<nat>, b: seq<nat>)
    requires ValidLengths(a) && ValidLengths(b)
    ensures Unroll([], Encoded(a) + Encoded(b)) == a + b
  {
    UnrollAppend([], Encoded(a), Encoded(b));
    ItemsUnroll([], a, 0, 0, -1);
    ItemsUnroll(a, b, 0, 0, -1);
    assert [] + a[..0] == [] && a + b[..0] == a && [] + a == a;
  }

  lemma RunGood(cur: nat, count: nat, prev: int)
    requires cur < 16 && 1 <= count <= MaxCount(prev, cur)
    ensures forall i :: 0 <= i < |RunItems(cur, count, prev)| ==> GoodItem(RunItems(cur, count, prev)[i])
  {
    assert Shl(1, 0) == 1 && Shl(1, 2) == 4 && Shl(1, 3) == 8 && Shl(1, 7) == 128;
  }

  /** All symbols are in range, and so are their extra bits. */
  lemma {:induction false} ItemsGood(lens: seq<nat>, n: nat, count: nat, prev: int)
    requires ValidLengths(lens) && n <= |lens| && (n < |lens| ==> count < MaxCount(prev, lens[n]))
    ensures forall i :: 0 <= i < |Items(lens, n, count, prev)| ==> GoodItem(Items(lens, n, count, prev)[i])
    decreases |lens| - n
  {
    hide GoodItem;
    if n != |lens| {
      var cur, next := lens[n], At0(lens, n + 1);
      if count + 1 < MaxCount(prev, cur) && cur == next {
        ItemsGood(lens, n + 1, count + 1, prev);
      } else {
        RunGood(cur, count + 1, prev);
        ItemsGood(lens, n + 1, 0, cur);
      }
    }
  }

  // ---------------------------------------------------------------- scan_tree

  /** How often symbol `s` occurs. */
  function Count(items: seq<Item>, s: nat): nat {
    if |items| == 0 then 0 else (if items[0].sym == s then 1 else 0) + Count(items[1..], s)
  }

  lemma {:induction false} CountAppend(a: seq<Item>, b: seq<Item>, s: nat)
    ensures Count(a + b, s) == Count(a, s) + Count(b, s)
  {
    if |a| == 0 {
      assert a + b == b;
    } else {
      assert (a + b)[1..] == a[1..] + b;
      CountAppend(a[1..], b, s);
    }
  }

  lemma {:induction false} CountCopies(cur: nat, count: nat, s: nat)
    ensures Count(Copies(cur, count), s) == if s == cur then count else 0
  {
    if count != 0 {
      assert Copies(cur, count)[1..] == Copies(cur, count - 1);
      CountCopies(cur, count - 1, s);
    }
  }

  lemma CountOne(a: Item, s: nat)
    ensures Count([a], s) == if a.sym == s then 1 else 0
  {
    assert [a][1..] == [];
  }

  lemma CountTwo(a: Item, b: Item, s: nat)
    ensures Count([a, b], s) == (if a.sym == s then 1 else 0) + if b.sym == s then 1 else 0
  {
    assert [a, b] == [a] + [b];
    CountAppend([a], [b], s);
    CountOne(a, s);
    CountOne(b, s);
  }

  /** A symbol that occurs is counted. */
  lemma {:induction false} Counted(items: seq<Item>, i: nat)
    requires i < |items|
    ensures 0 < Count(items, items[i].sym)
  {
    if i != 0 {
      Counted(items[1..], i - 1);
    }
  }

  /** `freq` counts `items` on top of `base`. */
  ghost predicate Counts(freq: seq<nat>, base: seq<nat>, items: seq<Item>) {
    |freq| == |base| && forall s :: 0 <= s < |freq| ==> freq[s] == base[s] + Count(items, s)
  }

  lemma NoneCounted(base: seq<nat>)
    ensures Counts(base, base, [])
  {
  }

  /** Add one run to the frequencies. */
  method CountRun(freq: array<nat>, cur: nat, count: nat, prev: int, ghost base: seq<nat>, ghost items: seq<Item>)
    requires 19 <= freq.Length && cur < 16 && 1 <= count && Counts(freq[..19], base, items)
    modifies freq
    ensures Counts(freq[..19], base, items + RunItems(cur, count, prev))
  {
    ghost var run := RunItems(cur, count, prev);
    forall s | 0 <= s < 19
      ensures Count(items + run, s) == Count(items, s) + Count(run, s)
    {
      CountAppend(items, run, s);
    }
    if count < MinCount(prev, cur) {
      forall s | 0 <= s < 19 ensures Count(run, s) == if s == cur then count else 0 { CountCopies(cur, count, s); }
      freq[cur] := freq[cur] + count;
    } else if cur != 0 {
      if cur != prev {
        forall s | 0 <= s < 19 ensures Count(run, s) == (if cur == s then 1 else 0) + if REP_3_6 == s then 1 else 0 {
          CountTwo(Item(cur, 0), Item(REP_3_6, count - 4), s);
        }
        freq[cur] := freq[cur] + 1;
      } else {
        forall s | 0 <= s < 19 ensures Count(run, s) == if REP_3_6 == s then 1 else 0 { CountOne(run[0], s); }
      }
      freq[REP_3_6] := freq[REP_3_6] + 1;
    } else if count <= 10 {
      forall s | 0 <= s < 19 ensures Count(run, s) == if REPZ_3_10 == s then 1 else 0 { CountOne(run[0], s); }
      freq[REPZ_3_10] := freq[REPZ_3_10] + 1;
    } else {
      forall s | 0 <= s < 19 ensures Count(run, s) == if REPZ_11_138 == s then 1 else 0 { CountOne(run[0], s); }
      freq[REPZ_11_138] := freq[REPZ_11_138] + 1;
    }
  }

  /** `scan_tree`: the frequencies grow by exactly the symbols that `send_tree` will send. A
      guard is left behind the last length. */
  method ScanTree(dl: array<nat>, maxCode: nat, freq: array<nat>)
    requires dl != freq && maxCode + 1 < dl.Length && 19 <= freq.Length && ValidLengths(dl[..maxCode + 1])
    modifies dl, freq
    ensures forall i :: 0 <= i < dl.Length ==> dl[i] == if i == maxCode + 1 then GUARD else old(dl[i])
    ensures Counts(freq[..19], old(freq[..19]), Encoded(old(dl[..maxCode + 1])))
  {
    ghost var lens, base := dl[..maxCode + 1], freq[..19];
    var prevlen: int, nextlen, count := -1, dl[0], 0;
    var max, min := 7, 4;
    if nextlen == 0 {
      max, min := 138, 3;
    }
    dl[maxCode + 1] := GUARD;
    ghost var done: seq<Item> := [];
    NoneCounted(base);
    hide Items, Counts, RunItems;
    for n := 0 to maxCode + 1
      invariant forall i :: 0 <= i < dl.Length ==> dl[i] == if i == maxCode + 1 then GUARD else old(dl[i])
      invariant nextlen == At0(lens, n) && max == MaxCount(prevlen, nextlen) && min == MinCount(prevlen, nextlen)
      invariant done + Items(lens, n, count, prevlen) == Encoded(lens) && Counts(freq[..19], base, done)
    {
      var curlen := nextlen;
      nextlen := dl[n + 1];
      count := count + 1;
      ItemsStep(lens, n, count - 1, prevlen, done);
      if count < max && curlen == nextlen {
        continue;
      }
      CountRun(freq, curlen, count, prevlen, base, done);
      done := done + RunItems(curlen, count, prevlen);
      count, prevlen := 0, curlen;
      if nextlen == 0 {
        max, min := 138, 3;
      } else if curlen == nextlen {
        max, min := 6, 3;
      } else {
        max, min := 7, 4;
      }
    }
    ItemsEnd(lens, count, prevlen);
    assert done + [] == done;
  }

  lemma ItemsEnd(lens: seq<nat>, count: nat, prev: int)
    ensures Items(lens, |lens|, count, prev) == []
  {
  }

  lemma ItemsStep(lens: seq<nat>, n: nat, count: nat, prev: int, done: seq<Item>)
    requires n < |lens|
    ensures var cur, next := lens[n], At0(lens, n + 1);
      if count + 1 < MaxCount(prev, cur) && cur == next
        then Items(lens, n, count, prev) == Items(lens, n + 1, count + 1, prev)
      else done + Items(lens, n, count, prev) == done + RunItems(cur, count + 1, prev) + Items(lens, n + 1, 0, cur)
  {
    var cur, next := lens[n], At0(lens, n + 1);
    if !(count + 1 < MaxCount(prev, cur) && cur == next) {
      assert done + (RunItems(cur, count + 1, prev) + Items(lens, n + 1, 0, cur))
          == done + RunItems(cur, count + 1, prev) + Items(lens, n + 1, 0, cur);
    }
  }

  // ---------------------------------------------------------------- send_tree

  /** `codes` are the canonical codes for the lengths `lens`, in the order they are sent. */
  ghost predicate Tree(codes: seq<nat>, lens: seq<nat>) {
    && |codes| <= |lens| && ValidLengths(lens)
    && forall n :: 0 <= n < |codes| && lens[n] != 0 ==> codes[n] == Rev(CodeValue(lens, n), lens[n])
  }

  /** `send_code`. */
  method SendCode(w: BitWriter, n: nat, codes: seq<nat>, lens: seq<nat>)
    requires w.Valid() && Tree(codes, lens) && n < |codes| && lens[n] != 0
    modifies w
    ensures w.Valid() && w.Stream() == old(w.Stream()) + CodeBits(lens, n)
  {
    RevBound(CodeValue(lens, n), lens[n]);
    hide CodeValue, Rev, Shl, BitsOf, ByteBits;
    w.SendBits(codes[n], lens[n]);
  }

  ghost function ItemBits(cl: seq<nat>, it: Item): seq<bool> {
    if it.sym < |cl| then CodeBits(cl, it.sym) + BitsOf(it.extra, RunBits(it.sym)) else []
  }

  /** Every symbol can be sent. */
  ghost predicate Sendable(cl: seq<nat>, items: seq<Item>) {
    |cl| == 19 && forall i :: 0 <= i < |items| ==> GoodItem(items[i]) && cl[items[i].sym] != 0
  }

  ghost function ItemsBits(cl: seq<nat>, items: seq<Item>): seq<bool> {
    if |items| == 0 then [] else ItemsBits(cl, items[..|items| - 1]) + ItemBits(cl, items[|items| - 1])
  }

  lemma {:induction false} ItemsBitsAppend(cl: seq<nat>, a: seq<Item>, b: seq<Item>)
    ensures ItemsBits(cl, a + b) == ItemsBits(cl, a) + ItemsBits(cl, b)
  {
    hide ItemBits;
    if |b| == 0 {
      assert a + b == a;
    } else {
      var b' := b[..|b| - 1];
      assert (a + b)[..|a + b| - 1] == a + b';
      ItemsBitsAppend(cl, a, b');
    }
  }

  lemma SendableParts(cl: seq<nat>, a: seq<Item>, b: seq<Item>)
    requires Sendable(cl, a + b)
    ensures Sendable(cl, a) && Sendable(cl, b)
  {
    hide GoodItem;
    assert forall i :: 0 <= i < |a| ==> (a + b)[i] == a[i];
    assert forall i :: 0 <= i < |b| ==> (a + b)[|a| + i] == b[i];
  }

  /** Send one symbol with its extra bits. */
  method SendItem(w: BitWriter, it: Item, codes: seq<nat>, cl: seq<nat>, ghost done: seq<Item>, ghost start: seq<bool>)
    requires w.Valid() && Tree(codes, cl) && |codes| == 19 && Sendable(cl, done + [it]) && Sendable(cl, done)
    requires w.Stream() == start + ItemsBits(cl, done)
    modifies w
    ensures w.Valid() && w.Stream() == start + ItemsBits(cl, done + [it])
  {
    hide Tree, CodeBits, BitsOf, ByteBits, Shl, ItemsBits;
    assert (done + [it])[|done|] == it;
    SendCode(w, it.sym, codes, cl);
    if it.sym >= 16 {
      w.SendBits(it.extra, RunBits(it.sym));
    } else {
      NoBits(it.extra);
    }
    ItemsBitsAppend(cl, done, [it]);
    OneItem(cl, it);
    assert w.Stream() == start + ItemsBits(cl, done) + CodeBits(cl, it.sym) + BitsOf(it.extra, RunBits(it.sym));
    Group4(start, ItemsBits(cl, done), CodeBits(cl, it.sym), BitsOf(it.extra, RunBits(it.sym)));
  }

  lemma NoBits(x: nat)
    ensures BitsOf(x, 0) == []
  {
  }

  /** Send one run. */
  method SendRun(w: BitWriter, cur: nat, count0: nat, prev: int, codes: seq<nat>, cl: seq<nat>, ghost done: seq<Item>,
                 ghost start: seq<bool>)
    requires w.Valid() && Tree(codes, cl) && |codes| == 19 && cur < 16 && 1 <= count0
    requires Sendable(cl, done + RunItems(cur, count0, prev))
    requires Sendable(cl, done) && w.Stream() == start + ItemsBits(cl, done)
    modifies w
    ensures w.Valid() && w.Stream() == start + ItemsBits(cl, done + RunItems(cur, count0, prev))
  {
    hide Tree, ItemsBits, GoodItem;
    var count := count0;
    ghost var run := RunItems(cur, count, prev);
    assert forall i :: 0 <= i < |run| ==> (done + run)[|done| + i] == run[i];
    if count < MinCount(prev, cur) {
      ghost var sent := 0;
      assert done + Copies(cur, 0) == done;
      while count != 0
        invariant 0 <= count <= count0 && sent == count0 - count && w.Valid()
        invariant Sendable(cl, done + Copies(cur, sent))
        invariant w.Stream() == start + ItemsBits(cl, done + Copies(cur, sent))
        decreases count
      {
        assert run[sent] == Item(cur, 0);
        assert done + Copies(cur, sent) + [Item(cur, 0)] == done + Copies(cur, sent + 1);
        SendItem(w, Item(cur, 0), codes, cl, done + Copies(cur, sent), start);
        count := count - 1;
        sent := sent + 1;
      }
    } else if cur != 0 {
      ghost var sent := done;
      if cur != prev {
        assert run[0] == Item(cur, 0) && run[1] == Item(REP_3_6, count - 4);
        SendItem(w, Item(cur, 0), codes, cl, done, start);
        count := count - 1;
        sent := done + [Item(cur, 0)];
      } else {
        assert run[0] == Item(REP_3_6, count - 3);
      }
      assert sent + [Item(REP_3_6, count - 3)] == done + run;
      SendItem(w, Item(REP_3_6, count - 3), codes, cl, sent, start);
    } else if count <= 10 {
      SendItem(w, Item(REPZ_3_10, count - 3), codes, cl, done, start);
    } else {
      SendItem(w, Item(REPZ_11_138, count - 11), codes, cl, done, start);
    }
  }

  /** `send_tree`: the lengths in run-length form, with the codes of the code length code. */
  method SendTree(w: BitWriter, dl: array<nat>, maxCode: nat, codes: seq<nat>, cl: seq<nat>)
    requires w.Valid() && Tree(codes, cl) && |codes| == 19 && maxCode + 1 < dl.Length && dl[maxCode + 1] == GUARD
    requires ValidLengths(dl[..maxCode + 1]) && Sendable(cl, Encoded(dl[..maxCode + 1]))
    modifies w
    ensures w.Valid() && w.Stream() == old(w.Stream()) + ItemsBits(cl, Encoded(dl[..maxCode + 1]))
  {
    hide Items, Tree, ItemsBits, Sendable, BitsOf, ByteBits, RunItems, Shl;
    ghost var lens, start := dl[..maxCode + 1], w.Stream();
    var prevlen: int, nextlen, count := -1, dl[0], 0;
    var max, min := 7, 4;
    if nextlen == 0 {
      max, min := 138, 3;
    }
    ghost var done: seq<Item> := [];
    NothingSent(cl, Encoded(lens), start);
    assert done + Items(lens, 0, 0, -1) == Encoded(lens);
    for n := 0 to maxCode + 1
      invariant w.Valid() && nextlen == At0(lens, n) && max == MaxCount(prevlen, nextlen)
      invariant min == MinCount(prevlen, nextlen)
      invariant done + Items(lens, n, count, prevlen) == Encoded(lens) && Sendable(cl, done)
      invariant w.Stream() == start + ItemsBits(cl, done)
    {
      var curlen := nextlen;
      nextlen := dl[n + 1];
      count := count + 1;
      ItemsStep(lens, n, count - 1, prevlen, done);
      if count < max && curlen == nextlen {
        continue;
      }
      ghost var run := RunItems(curlen, count, prevlen);
      SendableParts(cl, done + run, Items(lens, n + 1, 0, curlen));
      SendRun(w, curlen, count, prevlen, codes, cl, done, start);
      done := done + run;
      count, prevlen := 0, curlen;
      if nextlen == 0 {
        max, min := 138, 3;
      } else if curlen == nextlen {
        max, min := 6, 3;
      } else {
        max, min := 7, 4;
      }
    }
    ItemsEnd(lens, count, prevlen);
    assert done + [] == done;
  }

  lemma NothingSent(cl: seq<nat>, items: seq<Item>, start: seq<bool>)
    requires Sendable(cl, items)
    ensures Sendable(cl, []) && start + ItemsBits(cl, []) == start
  {
  }

  // ---------------------------------------------------------------- and back

  /** A code word at the front of the stream is the symbol read. */
  lemma CodeFound(ty: CodeType, lens: seq<nat>, n: nat, tail: seq<bool>)
    requires Usable(ty, lens) && n < |lens| && lens[n] != 0
    ensures SymbolAt(ty, lens, CodeBits(lens, n) + tail) == Symbol(n)
    ensures FoundBits(lens, Symbol(n)) == lens[n] == |CodeBits(lens, n)|
  {
    var rest := CodeBits(lens, n) + tail;
    assert rest[..lens[n]] == CodeBits(lens, n);
    FoundSymbol(ty, lens, n, rest);
  }

  /** The front of the stream at a symbol. */
  lemma ItemFront(cl: seq<nat>, it: Item, tail: seq<bool>)
    requires |cl| == 19 && Usable(CODES, cl) && GoodItem(it) && cl[it.sym] != 0
    ensures var rest, n, k := ItemBits(cl, it) + tail, cl[it.sym], RunBits(it.sym);
      && SymbolAt(CODES, cl, rest) == Symbol(it.sym) && FoundBits(cl, Symbol(it.sym)) == n
      && n + k <= |rest| && ValueOf(rest[n..][..k]) == it.extra && rest[n..][k..] == tail
      && (k == 0 ==> rest[n..] == tail)
  {
    var word, bits := CodeBits(cl, it.sym), BitsOf(it.extra, RunBits(it.sym));
    var rest := ItemBits(cl, it) + tail;
    CodeFound(CODES, cl, it.sym, bits + tail);
    assert rest == word + (bits + tail);
    hide CodeBits, SymbolAt, FoundBits, Usable, BitsOf, ValueOf, Shl, ItemBits;
    assert rest[|word|..] == bits + tail;
    assert (bits + tail)[..|bits|] == bits && (bits + tail)[|bits|..] == tail;
    ValueBits(it.extra, RunBits(it.sym));
    LowSmall(it.extra, RunBits(it.sym));
  }

  /** The CODELENS state undoes one symbol. */
  lemma ItemDecodes(fed: seq<bool>, s: State, it: Item, tail: seq<bool>)
    requires s.mode.CodeLens? && |s.mode.cl| == 19 && Usable(CODES, s.mode.cl) && GoodItem(it) && s.mode.cl[it.sym] != 0
    requires At(fed, s, ItemBits(s.mode.cl, it) + tail)
    requires it.sym == REP_3_6 ==> |s.mode.lens| != 0
    requires |s.mode.lens| < |Apply(s.mode.lens, it)| <= s.mode.nlen + s.mode.ndist
    ensures At(fed, s.(mode := s.mode.(lens := Apply(s.mode.lens, it))), tail)
  {
    hide At, CodeBits, SymbolAt, FoundBits, Usable, BitsOf, ValueOf, Shl, Repeat, ItemBits;
    var rest := ItemBits(s.mode.cl, it) + tail;
    ItemFront(s.mode.cl, it, tail);
    if it.sym < 16 {
      AfterCodeLen(fed, s, rest, Symbol(it.sym));
    } else {
      AfterRun(fed, s, rest, Symbol(it.sym), it.extra);
    }
  }

  /** No repeat symbol comes where there is nothing to repeat. */
  ghost predicate Repeatable(pre: seq<nat>, items: seq<Item>) {
    forall i :: 0 <= i < |items| && items[i].sym == REP_3_6 ==> 0 < i || 0 < |pre|
  }

  lemma ApplyGrows(pre: seq<nat>, it: Item)
    requires GoodItem(it) && (it.sym == REP_3_6 ==> 0 < |pre|)
    ensures |pre| < |Apply(pre, it)|
  {
  }

  lemma {:induction false} UnrollGrows(pre: seq<nat>, items: seq<Item>)
    ensures |pre| <= |Unroll(pre, items)|
    decreases |items|
  {
    if |items| != 0 {
      UnrollGrows(Apply(pre, items[0]), items[1..]);
    }
  }

  /** The CODELENS state undoes all symbols. */
  lemma {:induction false} ItemsDecode(fed: seq<bool>, s: State, items: seq<Item>, tail: seq<bool>)
    requires s.mode.CodeLens? && Usable(CODES, s.mode.cl) && Sendable(s.mode.cl, items)
    requires Repeatable(s.mode.lens, items)
    requires At(fed, s, ItemsBits(s.mode.cl, items) + tail)
    requires |Unroll(s.mode.lens, items)| <= s.mode.nlen + s.mode.ndist
    ensures At(fed, s.(mode := s.mode.(lens := Unroll(s.mode.lens, items))), tail)
    decreases |items|
  {
    hide At, Usable, GoodItem, Apply, Unroll, ItemBits, ItemsBits, Sendable, Repeatable;
    var cl, lens := s.mode.cl, s.mode.lens;
    if |items| == 0 {
      NoItems(cl, lens);
      assert [] + tail == tail;
    } else {
      var it, more := items[0], items[1..];
      FrontItem(cl, lens, items, tail);
      UnrollGrows(Apply(lens, it), more);
      ItemDecodes(fed, s, it, ItemsBits(cl, more) + tail);
      ItemsDecode(fed, s.(mode := s.mode.(lens := Apply(lens, it))), more, tail);
    }
  }

  lemma NoItems(cl: seq<nat>, lens: seq<nat>)
    ensures ItemsBits(cl, []) == [] && Unroll(lens, []) == lens
  {
  }

  lemma FrontItem(cl: seq<nat>, lens: seq<nat>, items: seq<Item>, tail: seq<bool>)
    requires |items| != 0 && Sendable(cl, items) && Repeatable(lens, items)
    ensures var it, more := items[0], items[1..];
      && |cl| == 19 && GoodItem(it) && cl[it.sym] != 0 && (it.sym == REP_3_6 ==> |lens| != 0)
        && |lens| < |Apply(lens, it)|
      && Sendable(cl, more) && Repeatable(Apply(lens, it), more)
      && Unroll(lens, items) == Unroll(Apply(lens, it), more)
      && ItemsBits(cl, items) + tail == ItemBits(cl, it) + (ItemsBits(cl, more) + tail)
  {
    FrontBits(cl, items, tail);
    ApplyGrows(lens, items[0]);
    assert Unroll(lens, items) == Unroll(Apply(lens, items[0]), items[1..]);
    hide ItemBits, ItemsBits, Apply, Unroll, GoodItem;
  }

  lemma FrontBits(cl: seq<nat>, items: seq<Item>, tail: seq<bool>)
    requires |items| != 0
    ensures ItemsBits(cl, items) + tail == ItemBits(cl, items[0]) + (ItemsBits(cl, items[1..]) + tail)
  {
    hide ItemBits, ItemsBits;
    var it, more := items[0], items[1..];
    assert items == [it] + more;
    ItemsBitsAppend(cl, [it], more);
    OneItem(cl, it);
  }

  lemma OneItem(cl: seq<nat>, it: Item)
    ensures [it][0] == it && ItemsBits(cl, [it]) == ItemBits(cl, it)
  {
    assert [it][..0] == [];
    assert [] + ItemBits(cl, it) == ItemBits(cl, it);
  }

  /** The first symbol for a list of lengths is no repeat. */
  lemma {:induction false} FirstItem(lens: seq<nat>, n: nat, count: nat)
    requires ValidLengths(lens) && n <= |lens| && (n < |lens| ==> count < MaxCount(-1, lens[n]))
    ensures var items := Items(lens, n, count, -1); |items| != 0 ==> items[0].sym != REP_3_6
    decreases |lens| - n
  {
    if n != |lens| {
      var cur, next := lens[n], At0(lens, n + 1);
      if count + 1 < MaxCount(-1, cur) && cur == next {
        FirstItem(lens, n + 1, count + 1);
      }
    }
  }

  // ---------------------------------------------------------------- which symbols are sent

  lemma {:induction false} OneRun(v: nat, n: nat, k: nat)
    requires v < 16 && k < n <= MaxCount(-1, v)
    ensures Items(Repeat(v, n), k, k, -1) == RunItems(v, n, -1)
    decreases n - k
  {
    hide RunItems;
    var lens := Repeat(v, n);
    if k + 1 < n {
      OneRun(v, n, k + 1);
    } else {
      assert Items(lens, n, 0, v) == [];
      assert RunItems(v, n, -1) + [] == RunItems(v, n, -1);
    }
  }

  /** Equal lengths are sent as a run wherever a run is shorter (section 3.2.7 of RFC 1951):
      up to 10 zeros by symbol 17, up to 138 by symbol 18, and up to 7 other equal lengths by the
      length itself and symbol 16. */
  lemma RunsSent(v: nat, n: nat)
    requires v < 16 && 1 <= n
    ensures v == 0 && n <= 2 ==> Encoded(Repeat(v, n)) == Copies(0, n)
    ensures v == 0 && 3 <= n <= 10 ==> Encoded(Repeat(v, n)) == [Item(17, n - 3)]
    ensures v == 0 && 11 <= n <= 138 ==> Encoded(Repeat(v, n)) == [Item(18, n - 11)]
    ensures v != 0 && n <= 3 ==> Encoded(Repeat(v, n)) == Copies(v, n)
    ensures v != 0 && 4 <= n <= 7 ==> Encoded(Repeat(v, n)) == [Item(v, 0), Item(16, n - 4)]
  {
    if n <= MaxCount(-1, v) {
      OneRun(v, n, 0);
    }
    hide Items;
  }
}

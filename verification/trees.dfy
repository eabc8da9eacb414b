/** The Huffman tree construction of lib/libgz/trees.c: `pqdownheap`, `build_tree`,
    `gen_bitlen` with its overflow repair, `gen_codes` and `bi_reverse`. */
module Trees {
  import opened Bits
  import opened Canonical
  import opened Optimality

  // ---------------------------------------------------------------- the heap

  /** Order of nodes: by frequency, then by depth. */
  predicate Smaller(freq: seq<nat>, depth: seq<nat>, n: nat, m: nat)
    requires n < |freq| && m < |freq| && |freq| == |depth|
  {
    freq[n] < freq[m] || (freq[n] == freq[m] && depth[n] <= depth[m])
  }

  /** Entries 1..len are nodes. */
  ghost predicate Nodes(h: seq<nat>, len: nat, freq: seq<nat>, depth: seq<nat>) {
    && len < |h| && |freq| == |depth|
    && forall i :: 1 <= i <= len ==> h[i] < |freq|
  }

  /** Every father from position `lo` on is smaller than its sons. */
  ghost predicate HeapFrom(h: seq<nat>, len: nat, lo: nat, freq: seq<nat>, depth: seq<nat>)
    requires Nodes(h, len, freq, depth)
  {
    forall c :: 2 <= c <= len && lo <= c / 2 ==> Smaller(freq, depth, h[c / 2], h[c])
  }

  /** As `HeapFrom`, except that the entry at `k` may be larger than its sons; these are
      then in order with the father of `k`. */
  ghost predicate HeapExcept(h: seq<nat>, len: nat, lo: nat, k: nat, freq: seq<nat>, depth: seq<nat>)
    requires Nodes(h, len, freq, depth) && 1 <= lo
  {
    && (forall c :: 2 <= c <= len && lo <= c / 2 && c / 2 != k ==> Smaller(freq, depth, h[c / 2], h[c]))
    && (forall c :: 2 <= c <= len && c / 2 == k && lo <= k / 2 ==> Smaller(freq, depth, h[k / 2], h[c]))
  }

  function Swapped(h: seq<nat>, i: nat, j: nat): seq<nat>
    requires i < |h| && j < |h|
  {
    h[i := h[j]][j := h[i]]
  }

  lemma SwapKeeps(h: seq<nat>, i: nat, j: nat, lo: nat, hi: nat)
    requires lo <= i < j < hi <= |h|
    ensures multiset(Swapped(h, i, j)[lo..hi]) == multiset(h[lo..hi])
  {
    var a, b, c := h[lo..i], h[i + 1..j], h[j + 1..hi];
    assert h[lo..hi] == a + [h[i]] + b + [h[j]] + c;
    assert Swapped(h, i, j)[lo..hi] == a + [h[j]] + b + [h[i]] + c;
  }

  /** Exchanging the exception with its smaller son moves the exception down. */
  lemma SiftStep(h: seq<nat>, len: nat, lo: nat, k: nat, j: nat, freq: seq<nat>, depth: seq<nat>)
    requires Nodes(h, len, freq, depth) && 1 <= lo <= k < j <= len && j / 2 == k
    requires HeapExcept(h, len, lo, k, freq, depth)
    requires SmallestSon(h, len, k, h[j], freq, depth) && !Smaller(freq, depth, h[k], h[j])
    ensures Nodes(Swapped(h, k, j), len, freq, depth)
    ensures HeapExcept(Swapped(h, k, j), len, lo, j, freq, depth)
  {
    var g := Swapped(h, k, j);
    forall c | 2 <= c <= len && lo <= c / 2 && c / 2 != j
      ensures Smaller(freq, depth, g[c / 2], g[c])
    {
      assert c != j ==> g[c] == if c == k then h[j] else h[c];
    }
    forall c | 2 <= c <= len && c / 2 == j && lo <= j / 2
      ensures Smaller(freq, depth, g[j / 2], g[c])
    {
      assert g[c] == h[c] && Smaller(freq, depth, h[c / 2], h[c]);
    }
  }

  /** The root of a heap is a smallest entry. */
  lemma {:induction false} RootSmallest(h: seq<nat>, len: nat, i: nat, freq: seq<nat>, depth: seq<nat>)
    requires Nodes(h, len, freq, depth) && HeapFrom(h, len, 1, freq, depth) && 1 <= i <= len
    ensures Smaller(freq, depth, h[1], h[i])
  {
    if i > 1 {
      RootSmallest(h, len, i / 2, freq, depth);
    }
  }

  ghost predicate SmallestSon(h: seq<nat>, len: nat, k: nat, n: nat, freq: seq<nat>, depth: seq<nat>)
    requires Nodes(h, len, freq, depth) && n < |freq|
  {
    forall c :: 2 <= c <= len && c / 2 == k ==> Smaller(freq, depth, n, h[c])
  }

  lemma ChooseSon(h: seq<nat>, len: nat, k: nat, freq: seq<nat>, depth: seq<nat>)
    requires Nodes(h, len, freq, depth) && 1 <= k && 2 * k <= len
    ensures var j := if 2 * k < len && Smaller(freq, depth, h[2 * k + 1], h[2 * k]) then 2 * k + 1 else 2 * k;
      SmallestSon(h, len, k, h[j], freq, depth)
  {
    assert forall c :: 2 <= c <= len && c / 2 == k ==> c == 2 * k || c == 2 * k + 1;
  }

  lemma SiftStop(h: seq<nat>, len: nat, lo: nat, k: nat, j: nat, freq: seq<nat>, depth: seq<nat>)
    requires Nodes(h, len, freq, depth) && 1 <= lo <= k <= len && HeapExcept(h, len, lo, k, freq, depth)
    requires 2 * k > len || (1 <= j <= len && SmallestSon(h, len, k, h[j], freq, depth)
      && Smaller(freq, depth, h[k], h[j]))
    ensures HeapFrom(h, len, lo, freq, depth)
  {
    forall c | 2 <= c <= len && lo <= c / 2
      ensures Smaller(freq, depth, h[c / 2], h[c])
    {
      if c / 2 == k {
        assert Smaller(freq, depth, h[j], h[c]);
      }
    }
  }

  /** `h` is a rearrangement of entries 1..len of `orig`, in heap order but for position `k`. */
  ghost predicate Sifting(h: seq<nat>, orig: seq<nat>, len: nat, lo: nat, k: nat, freq: seq<nat>, depth: seq<nat>) {
    && 1 <= lo <= k <= len && |h| == |orig|
    && Nodes(h, len, freq, depth) && HeapExcept(h, len, lo, k, freq, depth)
    && multiset(h[1..len + 1]) == multiset(orig[1..len + 1])
    && forall i :: 0 <= i < |h| && !(1 <= i <= len) ==> h[i] == orig[i]
  }

  lemma SiftStart(h: seq<nat>, len: nat, k: nat, freq: seq<nat>, depth: seq<nat>)
    requires Nodes(h, len, freq, depth) && 1 <= k <= len && HeapFrom(h, len, k + 1, freq, depth)
    ensures Sifting(h, h, len, k, k, freq, depth)
  {
  }

  lemma SiftMove(h: seq<nat>, orig: seq<nat>, len: nat, lo: nat, k: nat, j: nat, freq: seq<nat>, depth: seq<nat>)
    requires Sifting(h, orig, len, lo, k, freq, depth) && k < j <= len && j / 2 == k
    requires SmallestSon(h, len, k, h[j], freq, depth) && !Smaller(freq, depth, h[k], h[j])
    ensures Sifting(Swapped(h, k, j), orig, len, lo, j, freq, depth)
  {
    assert len < |h|;
    hide Smaller, HeapExcept, SmallestSon, Nodes, Swapped;
    SiftStep(h, len, lo, k, j, freq, depth);
    SwapKeeps(h, k, j, 1, len + 1);
    SwapElsewhere(h, k, j);
  }

  lemma SwapElsewhere(h: seq<nat>, i: nat, j: nat)
    requires i < |h| && j < |h|
    ensures |Swapped(h, i, j)| == |h| && forall p :: 0 <= p < |h| && p != i && p != j ==> Swapped(h, i, j)[p] == h[p]
  {
  }

  /** `pqdownheap`: move the node at `k0` down until the heap order holds from `k0` on. */
  method PqDownHeap(heap: array<nat>, len: nat, k0: nat, freq: seq<nat>, depth: seq<nat>)
    requires Nodes(heap[..], len, freq, depth) && 1 <= k0 <= len
    requires HeapFrom(heap[..], len, k0 + 1, freq, depth)
    modifies heap
    ensures Nodes(heap[..], len, freq, depth) && HeapFrom(heap[..], len, k0, freq, depth)
    ensures multiset(heap[..][1..len + 1]) == old(multiset(heap[..][1..len + 1]))
    ensures forall i :: 0 <= i < heap.Length && !(1 <= i <= len) ==> heap[i] == old(heap[i])
  {
    hide Smaller, HeapExcept, HeapFrom, SmallestSon;
    var v, k, j := heap[k0], k0, 2 * k0;
    ghost var orig := heap[..];
    ghost var h := orig;   // the heap with v put back at k
    ghost var stop := 0;
    SiftStart(h, len, k0, freq, depth);
    while j <= len
      invariant k0 <= k <= len && j == 2 * k
      invariant Sifting(h, orig, len, k0, k, freq, depth) && |orig| == heap.Length
      invariant h[k] == v && forall i :: 0 <= i < heap.Length && i != k ==> heap[i] == h[i]
      decreases len - k
    {
      ChooseSon(h, len, k, freq, depth);
      if j < len && Smaller(freq, depth, heap[j + 1], heap[j]) {
        j := j + 1;
      }
      if Smaller(freq, depth, v, heap[j]) {
        stop := j;
        break;
      }
      SiftMove(h, orig, len, k0, k, j, freq, depth);
      h := Swapped(h, k, j);
      heap[k] := heap[j];
      k := j;
      j := 2 * j;
    }
    SiftStop(h, len, k0, k, stop, freq, depth);
    heap[k] := v;
    assert heap[..] == h;
  }

  // ---------------------------------------------------------------- merging nodes

  /** The leaves and the first `k` inner nodes. */
  ghost function Universe(leaves: set<nat>, elems: nat, k: nat): set<nat> {
    if k == 0 then leaves else Universe(leaves, elems, k - 1) + {elems + k - 1}
  }

  lemma {:induction false} UniverseMember(leaves: set<nat>, elems: nat, k: nat, x: nat)
    ensures x in Universe(leaves, elems, k) <==> x in leaves || elems <= x < elems + k
  {
    if k != 0 {
      UniverseMember(leaves, elems, k - 1, x);
    }
  }

  /** Merge `i` made node `elems + i` the father of the two nodes it put into the list at the
      end of the heap array; both are older than their father. */
  ghost predicate Pair(h: seq<nat>, dl: seq<nat>, elems: nat, i: nat)
    requires 2 * i + 2 <= |h|
  {
    var n, m := h[|h| - 1 - 2 * i], h[|h| - 2 - 2 * i];
    && n < |dl| && m < |dl| && n < elems + i && m < elems + i
    && dl[n] == elems + i && dl[m] == elems + i
  }

  ghost predicate Pairs(h: seq<nat>, dl: seq<nat>, elems: nat, k: nat) {
    && 2 * k <= |h|
    && forall i :: 0 <= i < k ==> Pair(h, dl, elems, i)
  }

  /** The list at the end of the array holds nodes by decreasing frequency, and no active
      node is less frequent than a listed one. */
  ghost predicate ByFrequency(h: seq<nat>, len: nat, hmax: nat, freq: seq<nat>) {
    && len < hmax <= |h|
    && (forall i :: 1 <= i <= len ==> h[i] < |freq|)
    && (forall i :: hmax <= i < |h| ==> h[i] < |freq|)
    && (forall i, j :: hmax <= i <= j < |h| ==> freq[h[j]] <= freq[h[i]])
    && (forall i, j :: 1 <= i <= len && hmax <= j < |h| ==> freq[h[j]] <= freq[h[i]])
  }

  /** The active nodes 1..len and the listed ones are all nodes so far, each once. */
  ghost predicate AllOnce(h: seq<nat>, len: nat, leaves: set<nat>, elems: nat, k: nat) {
    && 2 * k + len < |h|
    && multiset(h[1..len + 1]) + multiset(h[|h| - 2 * k..]) == multiset(Universe(leaves, elems, k))
  }

  ghost predicate Sizes(h: seq<nat>, len: nat, freq: seq<nat>, depth: seq<nat>, dl: seq<nat>,
                        leaves: set<nat>, elems: nat, k: nat)
  {
    && 2 * elems <= |freq| == |depth| == |dl| && 2 * elems < |h| && 1 <= len && len + k <= elems
    && forall n :: n in leaves ==> n < elems
  }

  /** State after `k` merges: active nodes 1..len in heap order, the merged ones listed. */
  ghost predicate Merging(h: seq<nat>, len: nat, freq: seq<nat>, depth: seq<nat>, dl: seq<nat>,
                          leaves: set<nat>, elems: nat, k: nat)
  {
    && Sizes(h, len, freq, depth, dl, leaves, elems, k)
    && Nodes(h, len, freq, depth) && HeapFrom(h, len, 1, freq, depth)
    && Pairs(h, dl, elems, k)
    && ByFrequency(h, len, |h| - 2 * k, freq)
    && AllOnce(h, len, leaves, elems, k)
    && (0 < k ==> elems + k - 1 in multiset(h[1..len + 1]))
  }

  /** Taking the root out and the last entry in its place. */
  lemma RemoveRoot(h: seq<nat>, len: nat, freq: seq<nat>, depth: seq<nat>)
    requires Nodes(h, len, freq, depth) && HeapFrom(h, len, 1, freq, depth) && 2 <= len
    ensures var g := h[1 := h[len]];
      && Nodes(g, len - 1, freq, depth) && HeapFrom(g, len - 1, 2, freq, depth)
      && multiset(g[1..len]) + multiset{h[1]} == multiset(h[1..len + 1])
  {
    var g := h[1 := h[len]];
    assert h[1..len + 1] == [h[1]] + h[2..len] + [h[len]];
    assert g[1..len] == [h[len]] + h[2..len];
  }

  lemma ReplaceRoot(h: seq<nat>, len: nat, node: nat, freq: seq<nat>, depth: seq<nat>)
    requires Nodes(h, len, freq, depth) && HeapFrom(h, len, 1, freq, depth) && 1 <= len && node < |freq|
    ensures var g := h[1 := node];
      && Nodes(g, len, freq, depth) && HeapFrom(g, len, 2, freq, depth)
      && multiset(g[1..len + 1]) + multiset{h[1]} == multiset(h[1..len + 1]) + multiset{node}
  {
    var g := h[1 := node];
    assert h[1..len + 1] == [h[1]] + h[2..len + 1];
    assert g[1..len + 1] == [node] + h[2..len + 1];
  }

  lemma HeapReKeyed(h: seq<nat>, len: nat, lo: nat, freq: seq<nat>, depth: seq<nat>, freq': seq<nat>, depth': seq<nat>)
    requires Nodes(h, len, freq, depth) && HeapFrom(h, len, lo, freq, depth) && 1 <= lo
    requires |freq'| == |depth'| == |freq|
    requires forall i :: 1 <= i <= len ==> freq'[h[i]] == freq[h[i]] && depth'[h[i]] == depth[h[i]]
    ensures Nodes(h, len, freq', depth') && HeapFrom(h, len, lo, freq', depth')
  {
    forall c | 2 <= c <= len && lo <= c / 2
      ensures Smaller(freq', depth', h[c / 2], h[c])
    {
      assert Smaller(freq, depth, h[c / 2], h[c]);
    }
  }

  /** An active node is not listed, and is older than the next node. */
  lemma ActiveNode(h: seq<nat>, len: nat, leaves: set<nat>, elems: nat, k: nat, a: nat)
    requires AllOnce(h, len, leaves, elems, k) && (forall n :: n in leaves ==> n < elems)
    requires a in multiset(h[1..len + 1])
    ensures a < elems + k
    ensures forall p :: |h| - 2 * k <= p < |h| ==> h[p] != a
  {
    UniverseMember(leaves, elems, k, a);
    var listed := h[|h| - 2 * k..];
    assert a in multiset(Universe(leaves, elems, k));
    assert multiset(listed)[a] == 0;
    forall p | |h| - 2 * k <= p < |h|
      ensures h[p] != a
    {
      assert h[p] == listed[p - (|h| - 2 * k)];
    }
  }

  /** One merge of the two smallest active nodes `n` and `m` under `node`: what becomes of
      the heap array, with the active part given as a multiset. */
  ghost predicate Merged(h: seq<nat>, g: seq<nat>, len: nat, k: nat, n: nat, m: nat, node: nat) {
    && |g| == |h| && 2 <= len && 2 * k + 2 + len <= |h|
    && (forall p :: |h| - 2 * k <= p < |h| ==> g[p] == h[p])
    && g[|h| - 2 * k - 1] == n && g[|h| - 2 * k - 2] == m
    && multiset(g[1..len]) + multiset{n} + multiset{m} == multiset(h[1..len + 1]) + multiset{node}
  }

  lemma MergedOnce(h: seq<nat>, g: seq<nat>, len: nat, k: nat, n: nat, m: nat, leaves: set<nat>, elems: nat)
    requires AllOnce(h, len, leaves, elems, k) && (forall n :: n in leaves ==> n < elems)
    requires Merged(h, g, len, k, n, m, elems + k)
    requires n in multiset(h[1..len + 1]) && m in multiset(h[1..len + 1])
    ensures AllOnce(g, len - 1, leaves, elems, k + 1)
    ensures elems + k in multiset(g[1..len])
  {
    var node, at := elems + k, |h| - 2 * k;
    ListGrows(h, g, at, n, m);
    UniverseMember(leaves, elems, k, node);
    assert |g| - 2 * (k + 1) == at - 2;
    Balance(multiset(h[1..len + 1]), multiset(g[1..len]), multiset(h[at..]), multiset(g[at - 2..]),
            Universe(leaves, elems, k), n, m, node);
  }

  lemma ListGrows(h: seq<nat>, g: seq<nat>, at: nat, n: nat, m: nat)
    requires |g| == |h| && 2 <= at <= |h| && g[at - 1] == n && g[at - 2] == m
    requires forall p :: at <= p < |h| ==> g[p] == h[p]
    ensures multiset(g[at - 2..]) == multiset{m} + multiset{n} + multiset(h[at..])
  {
    assert g[at - 2..] == [m] + ([n] + h[at..]);
  }

  lemma Balance(a: multiset<nat>, a': multiset<nat>, d: multiset<nat>, d': multiset<nat>, u: set<nat>, n: nat, m: nat,
                node: nat)
    requires a + d == multiset(u) && node !in u && n in a && m in a
    requires a' + multiset{n} + multiset{m} == a + multiset{node}
    requires d' == multiset{m} + multiset{n} + d
    ensures a' + d' == multiset(u + {node})
    ensures node in a'
  {
    assert a' + d' == (a' + multiset{n} + multiset{m}) + d;
    assert multiset(u + {node}) == multiset(u) + multiset{node};
    assert node !in a + d;
    assert node != n && node != m;
    assert (a + multiset{node})[node] == 1;
  }

  lemma MergedPairs(h: seq<nat>, g: seq<nat>, len: nat, k: nat, n: nat, m: nat,
                    dl: seq<nat>, leaves: set<nat>, elems: nat)
    requires Pairs(h, dl, elems, k) && AllOnce(h, len, leaves, elems, k) && (forall n :: n in leaves ==> n < elems)
    requires Merged(h, g, len, k, n, m, elems + k)
    requires n in multiset(h[1..len + 1]) && m in multiset(h[1..len + 1]) && elems + k <= |dl|
    ensures n < |dl| && m < |dl|
    ensures Pairs(g, dl[n := elems + k][m := elems + k], elems, k + 1)
  {
    ActiveNode(h, len, leaves, elems, k, n);
    ActiveNode(h, len, leaves, elems, k, m);
    var dl' := dl[n := elems + k][m := elems + k];
    forall i | 0 <= i < k + 1
      ensures Pair(g, dl', elems, i)
    {
      if i < k {
        assert Pair(h, dl, elems, i);
        assert |h| - 2 * k <= |h| - 2 - 2 * i;
      }
    }
  }

  /** Active entries by value: `x` is an entry of 1..len. */
  lemma ActiveIndex(h: seq<nat>, len: nat, x: nat) returns (i: nat)
    requires len < |h| && x in multiset(h[1..len + 1])
    ensures 1 <= i <= len && h[i] == x
  {
    var s := h[1..len + 1];
    var j :| 0 <= j < |s| && s[j] == x;
    i := j + 1;
  }

  lemma MergedFrequency(h: seq<nat>, g: seq<nat>, len: nat, k: nat, n: nat, m: nat, node: nat, freq: seq<nat>)
    requires Merged(h, g, len, k, n, m, node) && ByFrequency(h, len, |h| - 2 * k, freq)
    requires node < |freq| && n != node && m != node && n in multiset(h[1..len + 1]) && m in multiset(h[1..len + 1])
    requires n < |freq| && m < |freq| && freq[n] <= freq[m]
    requires forall x :: x in multiset(g[1..len]) ==>
      x == node || (x in multiset(h[1..len + 1]) && x < |freq| && freq[m] <= freq[x])
    requires forall p :: |h| - 2 * k <= p < |h| ==> h[p] != node
    ensures ByFrequency(g, len - 1, |h| - 2 * (k + 1), freq[node := freq[n] + freq[m]])
  {
    var freq' := freq[node := freq[n] + freq[m]];
    var at := |h| - 2 * k;
    var i1 := ActiveIndex(h, len, n);
    var i2 := ActiveIndex(h, len, m);
    forall i | 1 <= i <= len - 1
      ensures g[i] < |freq'| && freq'[m] <= freq'[g[i]]
    {
      assert g[i] == g[1..len][i - 1];
      assert g[i] in multiset(g[1..len]);
    }
    forall j | at <= j < |h|
      ensures g[j] < |freq'| && freq'[g[j]] <= freq'[n]
    {
      assert g[j] == h[j];
    }
    forall i, j | at <= i <= j < |h|
      ensures freq'[g[j]] <= freq'[g[i]]
    {
      assert g[i] == h[i] && g[j] == h[j];
    }
    hide Merged;
    ListFrequency(g, len, at, n, m, freq');
  }

  lemma ListFrequency(g: seq<nat>, len: nat, at: nat, n: nat, m: nat, freq: seq<nat>)
    requires 1 <= len && len + 2 <= at <= |g| && n < |freq| && m < |freq| && freq[n] <= freq[m]
    requires g[at - 1] == n && g[at - 2] == m
    requires forall i :: 1 <= i <= len - 1 ==> g[i] < |freq| && freq[m] <= freq[g[i]]
    requires forall j :: at <= j < |g| ==> g[j] < |freq| && freq[g[j]] <= freq[n]
    requires forall i, j :: at <= i <= j < |g| ==> freq[g[j]] <= freq[g[i]]
    ensures ByFrequency(g, len - 1, at - 2, freq)
  {
    forall i, j | at - 2 <= i <= j < |g|
      ensures freq[g[j]] <= freq[g[i]]
    {
      if i >= at {
        assert freq[g[j]] <= freq[g[i]];
      }
    }
  }

  lemma InOther(a: multiset<nat>, b: multiset<nat>, m: nat, node: nat, x: nat)
    requires a + multiset{m} == b + multiset{node} && x in a && x != node
    ensures x in b
  {
    assert (a + multiset{m})[x] == a[x] + multiset{m}[x];
    assert (b + multiset{node})[x] == b[x] + multiset{node}[x];
  }

  /** `m`, the root after `n` is taken out, is no more frequent than any node that stays. */
  lemma MergeOrder(h: seq<nat>, h1: seq<nat>, g: seq<nat>, len: nat, n: nat, m: nat, node: nat, freq: seq<nat>,
                   depth: seq<nat>)
    requires Nodes(h, len, freq, depth) && HeapFrom(h, len, 1, freq, depth) && 2 <= len && n == h[1]
    requires Nodes(h1, len - 1, freq, depth) && HeapFrom(h1, len - 1, 1, freq, depth) && m == h1[1]
    requires multiset(h1[1..len]) + multiset{n} == multiset(h[1..len + 1])
    requires len <= |g| && multiset(g[1..len]) + multiset{m} == multiset(h1[1..len]) + multiset{node}
    ensures n in multiset(h[1..len + 1]) && m in multiset(h[1..len + 1]) && freq[n] <= freq[m]
    ensures multiset(g[1..len]) + multiset{n} + multiset{m} == multiset(h[1..len + 1]) + multiset{node}
    ensures forall x :: x in multiset(g[1..len]) ==>
              x == node || (x in multiset(h[1..len + 1]) && x < |freq| && freq[m] <= freq[x])
  {
    assert m == h1[1..len][0];
    assert m in multiset(h1[1..len]);
    var i := ActiveIndex(h, len, m);
    RootSmallest(h, len, i, freq, depth);
    forall x | x in multiset(g[1..len]) && x != node
      ensures x in multiset(h[1..len + 1]) && x < |freq| && freq[m] <= freq[x]
    {
      InOther(multiset(g[1..len]), multiset(h1[1..len]), m, node, x);
      var j := ActiveIndex(h1, len - 1, x);
      RootSmallest(h1, len - 1, j, freq, depth);
    }
    assert multiset(g[1..len]) + multiset{n} + multiset{m}
        == (multiset(g[1..len]) + multiset{m}) + multiset{n};
    assert multiset(h1[1..len]) + multiset{node} + multiset{n}
        == (multiset(h1[1..len]) + multiset{n}) + multiset{node};
  }

  /** The root `top` of 1..len is taken out; the other entries are rearranged in 1..len-1. */
  ghost predicate Removed(a: seq<nat>, b: seq<nat>, len: nat, top: nat) {
    && |a| == |b| && 2 <= len < |a| && top == a[1]
    && multiset(b[1..len]) + multiset{top} == multiset(a[1..len + 1])
    && forall i :: 0 <= i < |a| && !(1 <= i < len) ==> b[i] == a[i]
  }

  /** `node` takes the place of the root, and 1..len is rearranged. */
  ghost predicate Replaced(a: seq<nat>, b: seq<nat>, len: nat, node: nat) {
    && |a| == |b| && 1 <= len < |a|
    && multiset(b[1..len + 1]) + multiset{a[1]} == multiset(a[1..len + 1]) + multiset{node}
    && forall i :: 0 <= i < |a| && !(1 <= i <= len) ==> b[i] == a[i]
  }

  /** `pqremove`: take the smallest node out of the heap. */
  method PqRemove(heap: array<nat>, len: nat, freq: seq<nat>, depth: seq<nat>) returns (top: nat)
    requires Nodes(heap[..], len, freq, depth) && HeapFrom(heap[..], len, 1, freq, depth) && 2 <= len
    modifies heap
    ensures Nodes(heap[..], len - 1, freq, depth) && HeapFrom(heap[..], len - 1, 1, freq, depth)
    ensures top < |freq| && heap[1] < |freq|
    ensures Removed(old(heap[..]), heap[..], len, top)
  {
    hide HeapFrom;
    top := heap[1];
    RemoveRoot(heap[..], len, freq, depth);
    ghost var h: seq<nat> := heap[..];
    heap[1] := heap[len];
    assert heap[..] == h[1 := h[len]];
    PqDownHeap(heap, len - 1, 1, freq, depth);
  }

  /** Put `node` in the place of the smallest node. */
  method ReplaceTop(heap: array<nat>, len: nat, node: nat, freq: seq<nat>, depth: seq<nat>)
    requires Nodes(heap[..], len, freq, depth) && HeapFrom(heap[..], len, 1, freq, depth) && 1 <= len && node < |freq|
    modifies heap
    ensures Nodes(heap[..], len, freq, depth) && HeapFrom(heap[..], len, 1, freq, depth)
    ensures Replaced(old(heap[..]), heap[..], len, node)
  {
    hide HeapFrom;
    ReplaceRoot(heap[..], len, node, freq, depth);
    ghost var h: seq<nat> := heap[..];
    heap[1] := node;
    assert heap[..] == h[1 := node];
    PqDownHeap(heap, len, 1, freq, depth);
  }

  /** `node` is made the father of `n` and `m`. */
  ghost predicate Fathered(freq: seq<nat>, depth: seq<nat>, dl: seq<nat>,
                           freq': seq<nat>, depth': seq<nat>, dl': seq<nat>, n: nat, m: nat, node: nat)
  {
    && |freq| == |depth| == |dl| && n < |dl| && m < |dl| && node < |dl|
    && freq' == freq[node := freq[n] + freq[m]]
    && depth' == depth[node := (if depth[n] >= depth[m] then depth[n] else depth[m]) + 1]
    && dl' == dl[n := node][m := node]
  }

  /** List `n` and `m` and make `node` their father. */
  method LinkFather(heap: array<nat>, depth: array<nat>, freq: array<nat>, dl: array<nat>,
                    at: nat, n: nat, m: nat, node: nat)
    requires heap != depth && heap != freq && heap != dl && depth != freq && depth != dl && freq != dl
    requires 2 <= at <= heap.Length && n < dl.Length && m < dl.Length
    requires freq.Length == depth.Length == dl.Length && node < dl.Length
    modifies heap, depth, freq, dl
    ensures heap[..] == old(heap[..])[at - 1 := n][at - 2 := m]
    ensures Fathered(old(freq[..]), old(depth[..]), old(dl[..]), freq[..], depth[..], dl[..], n, m, node)
  {
    heap[at - 1] := n;
    heap[at - 2] := m;
    freq[node] := freq[n] + freq[m];
    depth[node] := (if depth[n] >= depth[m] then depth[n] else depth[m]) + 1;
    dl[n] := node;
    dl[m] := node;
  }

  /** Half a round: `n` and `m` are taken out and listed, `node` is their father but not yet
      in the heap. */
  ghost predicate HalfMerged(h: seq<nat>, freq: seq<nat>, depth: seq<nat>, dl: seq<nat>,
                             h2: seq<nat>, freq': seq<nat>, depth': seq<nat>, dl': seq<nat>,
                             len: nat, leaves: set<nat>, elems: nat, k: nat)
  {
    exists h1: seq<nat>, n: nat, m: nat ::
      && Taken(h, h1, h2, freq, depth, dl, len, n, m, leaves, elems, k)
      && Fathered(freq, depth, dl, freq', depth', dl', n, m, elems + k)
  }

  ghost predicate Taken(h: seq<nat>, h1: seq<nat>, h2: seq<nat>, freq: seq<nat>, depth: seq<nat>, dl: seq<nat>,
                        len: nat, n: nat, m: nat, leaves: set<nat>, elems: nat, k: nat)
  {
    && Merging(h, len, freq, depth, dl, leaves, elems, k) && 2 <= len
    && Removed(h, h1, len, n)
    && Nodes(h1, len - 1, freq, depth) && HeapFrom(h1, len - 1, 1, freq, depth) && m == h1[1]
    && h2 == h1[|h| - 2 * k - 1 := n][|h| - 2 * k - 2 := m] && h2[1..len] == h1[1..len]
  }

  method TakeTwo(heap: array<nat>, depth: array<nat>, freq: array<nat>, dl: array<nat>,
                 len: nat, ghost leaves: set<nat>, elems: nat, k: nat)
    requires heap != depth && heap != freq && heap != dl && depth != freq && depth != dl && freq != dl
    requires Merging(heap[..], len, freq[..], depth[..], dl[..], leaves, elems, k) && 2 <= len
    modifies heap, depth, freq, dl
    ensures HalfMerged(old(heap[..]), old(freq[..]), old(depth[..]), old(dl[..]),
                       heap[..], freq[..], depth[..], dl[..], len, leaves, elems, k)
    ensures Nodes(heap[..], len - 1, freq[..], depth[..]) && HeapFrom(heap[..], len - 1, 1, freq[..], depth[..])
    ensures elems + k < freq.Length
  {
    hide *;
    ghost var h: seq<nat>, f: seq<nat>, d: seq<nat>, l: seq<nat> := heap[..], freq[..], depth[..], dl[..];
    MergingSizes(h, len, f, d, l, leaves, elems, k);
    var n := PqRemove(heap, len, freq[..], depth[..]);
    LinkTwo(heap, depth, freq, dl, len, n, heap[1], h, leaves, elems, k);
  }

  /** With `n` taken out, it and the root `m` get their father. */
  method LinkTwo(heap: array<nat>, depth: array<nat>, freq: array<nat>, dl: array<nat>,
                 len: nat, n: nat, m: nat, ghost h: seq<nat>, ghost leaves: set<nat>, elems: nat, k: nat)
    requires heap != depth && heap != freq && heap != dl && depth != freq && depth != dl && freq != dl
    requires Merging(h, len, freq[..], depth[..], dl[..], leaves, elems, k) && 2 <= len && heap.Length == |h|
    requires Removed(h, heap[..], len, n) && 2 <= heap.Length && m == heap[1]
    requires Nodes(heap[..], len - 1, freq[..], depth[..]) && HeapFrom(heap[..], len - 1, 1, freq[..], depth[..])
    modifies heap, depth, freq, dl
    ensures HalfMerged(h, old(freq[..]), old(depth[..]), old(dl[..]),
                       heap[..], freq[..], depth[..], dl[..], len, leaves, elems, k)
    ensures Nodes(heap[..], len - 1, freq[..], depth[..]) && HeapFrom(heap[..], len - 1, 1, freq[..], depth[..])
    ensures elems + k < freq.Length
  {
    hide *;
    ghost var h1: seq<nat>, f: seq<nat>, d: seq<nat>, l: seq<nat> := heap[..], freq[..], depth[..], dl[..];
    MergingSizes(h, len, f, d, l, leaves, elems, k);
    ActiveInRange(h, h1, len, leaves, elems, k, n, m);
    LinkFather(heap, depth, freq, dl, heap.Length - 2 * k, n, m, elems + k);
    LinkedHeap(h1, heap[..], len, |h| - 2 * k, n, m, elems + k, f, d, l, freq[..], depth[..], dl[..]);
    TakenTwo(h, h1, heap[..], f, d, l, freq[..], depth[..], dl[..], len, n, m, leaves, elems, k);
  }

  lemma TakenTwo(h: seq<nat>, h1: seq<nat>, h2: seq<nat>, freq: seq<nat>, depth: seq<nat>, dl: seq<nat>,
                 freq': seq<nat>, depth': seq<nat>, dl': seq<nat>,
                 len: nat, n: nat, m: nat, leaves: set<nat>, elems: nat, k: nat)
    requires Merging(h, len, freq, depth, dl, leaves, elems, k) && 2 <= len
    requires Removed(h, h1, len, n)
    requires Nodes(h1, len - 1, freq, depth) && HeapFrom(h1, len - 1, 1, freq, depth) && m == h1[1]
    requires h2 == h1[|h| - 2 * k - 1 := n][|h| - 2 * k - 2 := m] && h2[1..len] == h1[1..len]
    requires Fathered(freq, depth, dl, freq', depth', dl', n, m, elems + k)
    ensures HalfMerged(h, freq, depth, dl, h2, freq', depth', dl', len, leaves, elems, k)
  {
    hide Merging, Removed, Nodes, HeapFrom, Fathered;
    assert Taken(h, h1, h2, freq, depth, dl, len, n, m, leaves, elems, k);
  }

  lemma HalfDone(h: seq<nat>, h2: seq<nat>, g: seq<nat>,
                 freq: seq<nat>, depth: seq<nat>, dl: seq<nat>, freq': seq<nat>, depth': seq<nat>, dl': seq<nat>,
                 len: nat, leaves: set<nat>, elems: nat, k: nat)
    requires HalfMerged(h, freq, depth, dl, h2, freq', depth', dl', len, leaves, elems, k)
    requires 2 <= len && Replaced(h2, g, len - 1, elems + k)
    requires Nodes(g, len - 1, freq', depth') && HeapFrom(g, len - 1, 1, freq', depth')
    ensures Merging(g, len - 1, freq', depth', dl', leaves, elems, k + 1)
    ensures SymbolsKept(freq, freq', dl, dl', leaves, elems)
    ensures Summed(h, freq, elems, k) ==> Summed(g, freq', elems, k + 1)
  {
    hide Merging, Removed, HeapFrom, Fathered, Replaced, Summed;
    var h1: seq<nat>, n: nat, m: nat :|
      && Taken(h, h1, h2, freq, depth, dl, len, n, m, leaves, elems, k)
      && Fathered(freq, depth, dl, freq', depth', dl', n, m, elems + k);
    MergeDone(h, h1, h2, g, len, n, m, freq, depth, dl, freq', depth', dl', leaves, elems, k);
  }

  /** One round of the merge loop of `build_tree`: the node of least frequency and the next
      one get a father, which takes their place in the heap. */
  method MergeTwo(heap: array<nat>, depth: array<nat>, freq: array<nat>, dl: array<nat>,
                  len: nat, ghost leaves: set<nat>, elems: nat, k: nat)
    requires heap != depth && heap != freq && heap != dl && depth != freq && depth != dl && freq != dl
    requires Merging(heap[..], len, freq[..], depth[..], dl[..], leaves, elems, k) && 2 <= len
    modifies heap, depth, freq, dl
    ensures Merging(heap[..], len - 1, freq[..], depth[..], dl[..], leaves, elems, k + 1)
    ensures SymbolsKept(old(freq[..]), freq[..], old(dl[..]), dl[..], leaves, elems)
    ensures old(Summed(heap[..], freq[..], elems, k)) ==> Summed(heap[..], freq[..], elems, k + 1)
  {
    hide *;
    ghost var h: seq<nat>, f: seq<nat>, d: seq<nat>, l: seq<nat> := heap[..], freq[..], depth[..], dl[..];
    TakeTwo(heap, depth, freq, dl, len, leaves, elems, k);
    ghost var h2: seq<nat> := heap[..];
    ReplaceTop(heap, len - 1, elems + k, freq[..], depth[..]);
    HalfDone(h, h2, heap[..], f, d, l, freq[..], depth[..], dl[..], len, leaves, elems, k);
  }

  /** Frequencies of symbols, and the fields of symbols that are not leaves, are untouched. */
  ghost predicate SymbolsKept(freq: seq<nat>, freq': seq<nat>, dl: seq<nat>, dl': seq<nat>, leaves: set<nat>,
                              elems: nat) {
    && elems <= |freq| == |freq'| && elems <= |dl| == |dl'|
    && (forall i :: 0 <= i < elems ==> freq'[i] == freq[i])
    && (forall i :: 0 <= i < elems && i !in leaves ==> dl'[i] == dl[i])
  }

  lemma LinkedHeap(h1: seq<nat>, h2: seq<nat>, len: nat, at: nat, n: nat, m: nat, node: nat,
                   freq: seq<nat>, depth: seq<nat>, dl: seq<nat>, freq': seq<nat>, depth': seq<nat>, dl': seq<nat>)
    requires 1 <= len && len + 2 <= at <= |h1| && h2 == h1[at - 1 := n][at - 2 := m]
    requires Nodes(h1, len - 1, freq, depth) && HeapFrom(h1, len - 1, 1, freq, depth)
    requires forall i :: 1 <= i < len ==> h1[i] < node
    requires Fathered(freq, depth, dl, freq', depth', dl', n, m, node)
    ensures node < |freq'| && h2[1..len] == h1[1..len]
    ensures Nodes(h2, len - 1, freq', depth') && HeapFrom(h2, len - 1, 1, freq', depth')
  {
    SameHeap(h1, h2, len - 1, 1, freq, depth);
    HeapReKeyed(h2, len - 1, 1, freq, depth, freq', depth');
  }

  lemma MergingSizes(h: seq<nat>, len: nat, freq: seq<nat>, depth: seq<nat>, dl: seq<nat>, leaves: set<nat>,
                     elems: nat, k: nat)
    requires Merging(h, len, freq, depth, dl, leaves, elems, k)
    ensures 2 * elems <= |freq| == |depth| == |dl| && 2 * elems < |h| && 1 <= len && len + k <= elems
    ensures (forall n :: n in leaves ==> n < elems) && AllOnce(h, len, leaves, elems, k)
    ensures Nodes(h, len, freq, depth) && HeapFrom(h, len, 1, freq, depth)
  {
  }

  /** The whole round, on the heap array. */
  lemma MergeMoves(h: seq<nat>, h1: seq<nat>, h2: seq<nat>, g: seq<nat>, len: nat, n: nat, m: nat, node: nat, k: nat,
                   freq: seq<nat>, depth: seq<nat>)
    requires Nodes(h, len, freq, depth) && HeapFrom(h, len, 1, freq, depth) && 2 <= len && 2 * k + 2 + len <= |h|
    requires Removed(h, h1, len, n)
    requires Nodes(h1, len - 1, freq, depth) && HeapFrom(h1, len - 1, 1, freq, depth) && m == h1[1]
    requires h2 == h1[|h| - 2 * k - 1 := n][|h| - 2 * k - 2 := m] && h2[1..len] == h1[1..len]
    requires Replaced(h2, g, len - 1, node)
    ensures Merged(h, g, len, k, n, m, node)
    ensures n in multiset(h[1..len + 1]) && m in multiset(h[1..len + 1]) && freq[n] <= freq[m]
    ensures forall x :: x in multiset(g[1..len]) ==>
              x == node || (x in multiset(h[1..len + 1]) && x < |freq| && freq[m] <= freq[x])
  {
    hide HeapFrom, Smaller;
    assert h2[1] == h2[1..len][0] == m;
    MergeOrder(h, h1, g, len, n, m, node, freq, depth);
  }

  lemma MergeDone(h: seq<nat>, h1: seq<nat>, h2: seq<nat>, g: seq<nat>, len: nat, n: nat, m: nat,
                  freq: seq<nat>, depth: seq<nat>, dl: seq<nat>, freq': seq<nat>, depth': seq<nat>, dl': seq<nat>,
                  leaves: set<nat>, elems: nat, k: nat)
    requires Merging(h, len, freq, depth, dl, leaves, elems, k) && 2 <= len
    requires Removed(h, h1, len, n)
    requires Nodes(h1, len - 1, freq, depth) && HeapFrom(h1, len - 1, 1, freq, depth) && m == h1[1]
    requires h2 == h1[|h| - 2 * k - 1 := n][|h| - 2 * k - 2 := m] && h2[1..len] == h1[1..len]
    requires Replaced(h2, g, len - 1, elems + k)
    requires Fathered(freq, depth, dl, freq', depth', dl', n, m, elems + k)
    requires Nodes(g, len - 1, freq', depth') && HeapFrom(g, len - 1, 1, freq', depth')
    ensures Merging(g, len - 1, freq', depth', dl', leaves, elems, k + 1)
    ensures SymbolsKept(freq, freq', dl, dl', leaves, elems)
    ensures Summed(h, freq, elems, k) ==> Summed(g, freq', elems, k + 1)
  {
    hide HeapFrom, ByFrequency, Pairs, AllOnce, Smaller, Universe, Removed, Replaced, Merged, Summed;
    MergeMoves(h, h1, h2, g, len, n, m, elems + k, k, freq, depth);
    ActiveInRange(h, h1, len, leaves, elems, k, n, m);
    MergedOnce(h, g, len, k, n, m, leaves, elems);
    MergedPairs(h, g, len, k, n, m, dl, leaves, elems);
    ListedOld(h, len, leaves, elems, k);
    MergedFrequency(h, g, len, k, n, m, elems + k, freq);
    if Summed(h, freq, elems, k) {
      SummedMore(h, g, len, k, n, m, freq, elems);
    }
    assert |h| == |g| && 2 * elems < |g| by { assert Nodes(g, len - 1, freq', depth'); MergedSize(h, g, len, k, n, m,
      elems + k); }
  }

  lemma MergedSize(h: seq<nat>, g: seq<nat>, len: nat, k: nat, n: nat, m: nat, node: nat)
    requires Merged(h, g, len, k, n, m, node)
    ensures |h| == |g|
  {
  }

  lemma SameHeap(h: seq<nat>, g: seq<nat>, len: nat, lo: nat, freq: seq<nat>, depth: seq<nat>)
    requires Nodes(h, len, freq, depth) && HeapFrom(h, len, lo, freq, depth) && 1 <= lo
    requires len < |g| && forall i :: 1 <= i <= len ==> g[i] == h[i]
    ensures Nodes(g, len, freq, depth) && HeapFrom(g, len, lo, freq, depth)
  {
    forall c | 2 <= c <= len && lo <= c / 2
      ensures Smaller(freq, depth, g[c / 2], g[c])
    {
      assert Smaller(freq, depth, h[c / 2], h[c]);
    }
  }

  /** All active nodes are older than the node about to be made; symbols among them are leaves. */
  lemma ActiveInRange(h: seq<nat>, h1: seq<nat>, len: nat, leaves: set<nat>, elems: nat, k: nat, n: nat, m: nat)
    requires AllOnce(h, len, leaves, elems, k) && (forall x :: x in leaves ==> x < elems) && 2 <= len
    requires Removed(h, h1, len, n) && m == h1[1]
    ensures n < elems + k && m < elems + k
    ensures n < elems ==> n in leaves
    ensures m < elems ==> m in leaves
    ensures forall i :: 1 <= i < len ==> h1[i] < elems + k
  {
    assert n == h[1..len + 1][0];
    assert n in multiset(h[1..len + 1]);
    ActiveNode(h, len, leaves, elems, k, n);
    UniverseMember(leaves, elems, k, n);
    UniverseMember(leaves, elems, k, m);
    forall i | 1 <= i < len
      ensures h1[i] in multiset(h[1..len + 1])
      ensures h1[i] < elems + k
    {
      assert h1[i] == h1[1..len][i - 1];
      assert h1[i] in multiset(h1[1..len]);
      ActiveNode(h, len, leaves, elems, k, h1[i]);
    }
    assert n in multiset(Universe(leaves, elems, k)) && m in multiset(Universe(leaves, elems, k));
  }

  lemma ListedOld(h: seq<nat>, len: nat, leaves: set<nat>, elems: nat, k: nat)
    requires AllOnce(h, len, leaves, elems, k) && (forall x :: x in leaves ==> x < elems)
    ensures forall p :: |h| - 2 * k <= p < |h| ==> h[p] < elems + k
  {
    forall p | |h| - 2 * k <= p < |h|
      ensures h[p] < elems + k
    {
      assert h[p] == h[|h| - 2 * k..][p - (|h| - 2 * k)];
      assert h[p] in multiset(h[|h| - 2 * k..]);
      assert h[p] in multiset(Universe(leaves, elems, k));
      UniverseMember(leaves, elems, k, h[p]);
    }
  }

  // ---------------------------------------------------------------- the tree as a list

  /** The list at the end of the array after `k` merges: the root, then the pairs of sons,
      fathers before sons; every leaf and inner node once; by decreasing frequency. */
  ghost predicate TreeList(h: seq<nat>, dl: seq<nat>, freq: seq<nat>, leaves: set<nat>, elems: nat, k: nat) {
    && 1 <= k < elems && elems + k <= |dl| && |dl| == |freq| && 2 * k + 1 < |h|
    && (forall n :: n in leaves ==> n < elems)
    && Pairs(h, dl, elems, k)
    && h[|h| - 2 * k - 1] == elems + k - 1
    && multiset(h[|h| - 2 * k - 1..]) == multiset(Universe(leaves, elems, k))
    && (forall i :: |h| - 2 * k - 1 <= i < |h| ==> h[i] < |freq|)
    && (forall i, j :: |h| - 2 * k - 1 <= i <= j < |h| ==> freq[h[j]] <= freq[h[i]])
  }

  /** `leaves` are the symbols with a frequency, listed at 1..len. */
  ghost predicate Collected(h: seq<nat>, len: nat, freq: seq<nat>, leaves: set<nat>, bound: nat) {
    && len < |h| && bound <= |freq| && len <= bound
    && (forall n :: n in leaves <==> 0 <= n < bound && freq[n] != 0)
    && multiset(h[1..len + 1]) == multiset(leaves)
  }

  lemma CollectOne(h: seq<nat>, g: seq<nat>, len: nat, n: nat, leaves: set<nat>)
    requires len + 1 < |h| == |g| && g[len + 1] == n && n !in leaves
    requires forall i :: 1 <= i <= len ==> g[i] == h[i]
    requires multiset(h[1..len + 1]) == multiset(leaves)
    ensures multiset(g[1..len + 2]) == multiset(leaves + {n})
  {
    assert g[1..len + 2] == h[1..len + 1] + [n];
  }

  /** A symbol with a frequency joins the collected ones. */
  lemma CollectNext(h: seq<nat>, g: seq<nat>, len: nat, n: nat, freq: seq<nat>, leaves: set<nat>)
    requires Collected(h, len, freq, leaves, n) && n < |freq| && freq[n] != 0
    requires len + 1 < |h| && g == h[len + 1 := n]
    ensures Collected(g, len + 1, freq, leaves + {n}, n + 1)
  {
    CollectOne(h, g, len, n, leaves);
  }

  /** The largest collected symbol, or -1. */
  ghost predicate IsMaxCode(maxCode: int, leaves: set<nat>) {
    && (leaves == {} ==> maxCode == -1)
    && (leaves != {} ==> 0 <= maxCode && maxCode in leaves)
    && forall i :: i in leaves ==> i <= maxCode
  }

  /** The first loop of `build_tree`: put the used symbols into the heap array. */
  method CollectUsed(heap: array<nat>, depth: array<nat>, freq: array<nat>, dl: array<nat>, elems: nat)
    returns (len: nat, maxCode: int, ghost leaves: set<nat>)
    requires heap != depth && heap != freq && heap != dl && depth != freq && depth != dl && freq != dl
    requires elems <= freq.Length == depth.Length == dl.Length && elems < heap.Length
    modifies heap, depth, dl
    ensures Collected(heap[..], len, freq[..], leaves, elems) && |leaves| == len && IsMaxCode(maxCode, leaves)
    ensures forall n :: 0 <= n < elems && n !in leaves ==> dl[n] == 0
  {
    hide Collected;
    len, maxCode, leaves := 0, -1, {};
    CollectNone(heap[..], freq[..]);
    for n := 0 to elems
      invariant Collected(heap[..], len, freq[..], leaves, n) && |leaves| == len && len <= n
      invariant IsMaxCode(maxCode, leaves) && forall i :: i in leaves ==> i < n
      invariant forall i :: 0 <= i < n && i !in leaves ==> dl[i] == 0
    {
      if freq[n] != 0 {
        CollectNext(heap[..], heap[..][len + 1 := n], len, n, freq[..], leaves);
        len, maxCode := len + 1, n;
        ghost var h: seq<nat> := heap[..];
        heap[len] := n;
        assert heap[..] == h[len := n];
        depth[n] := 0;
        leaves := leaves + {n};
      } else {
        SkipNext(heap[..], len, n, freq[..], leaves);
        dl[n] := 0;
      }
    }
  }

  /** The second loop: force at least two symbols with a frequency. */
  method ForceTwo(heap: array<nat>, depth: array<nat>, freq: array<nat>, elems: nat, len0: nat, maxCode0: int,
                  ghost leaves0: set<nat>)
    returns (len: nat, maxCode: int, ghost leaves: set<nat>)
    requires heap != depth && heap != freq && depth != freq
    requires 3 <= elems <= freq.Length == depth.Length && elems < heap.Length
    requires Collected(heap[..], len0, freq[..], leaves0, elems) && |leaves0| == len0 && IsMaxCode(maxCode0, leaves0)
    modifies heap, depth, freq
    ensures 2 <= len && Collected(heap[..], len, freq[..], leaves, elems) && IsMaxCode(maxCode, leaves)
    ensures |leaves| == len && (len0 < 2 ==> len == 2)
    ensures leaves0 <= leaves && (2 <= len0 ==> leaves == leaves0)
    ensures forall i :: 0 <= i < elems ==> freq[i] == if i in leaves && i !in leaves0 then 1 else old(freq[i])
  {
    hide Collected;
    len, maxCode, leaves := len0, maxCode0, leaves0;
    while len < 2
      invariant Collected(heap[..], len, freq[..], leaves, elems) && |leaves| == len && IsMaxCode(maxCode, leaves)
      invariant leaves0 <= leaves && (2 <= len0 ==> leaves == leaves0) && (len0 < 2 ==> len <= 2)
      invariant forall i :: 0 <= i < elems ==> freq[i] == if i in leaves && i !in leaves0 then 1 else old(freq[i])
    {
      var node: nat := 0;
      if maxCode < 2 {
        maxCode := maxCode + 1;
        node := maxCode;
      } else {
        OnlyOne(leaves, maxCode, 0);
      }
      ghost var h: seq<nat>, f: seq<nat> := heap[..], freq[..];
      ForcedSymbol(h, len, node, f, leaves, elems);
      len := len + 1;
      heap[len] := node;
      freq[node] := 1;
      depth[node] := 0;
      assert heap[..] == h[len := node] && freq[..] == f[node := 1];
      leaves := leaves + {node};
    }
  }

  lemma ForcedSymbol(h: seq<nat>, len: nat, node: nat, freq: seq<nat>, leaves: set<nat>, elems: nat)
    requires Collected(h, len, freq, leaves, elems) && node < elems && node !in leaves && len + 1 < |h| && len < elems
    ensures Collected(h[len + 1 := node], len + 1, freq[node := 1], leaves + {node}, elems)
  {
    CollectOne(h, h[len + 1 := node], len, node, leaves);
  }

  lemma CollectNone(h: seq<nat>, freq: seq<nat>)
    requires 0 < |h|
    ensures Collected(h, 0, freq, {}, 0)
  {
    assert h[1..1] == [];
  }

  lemma SkipNext(h: seq<nat>, len: nat, n: nat, freq: seq<nat>, leaves: set<nat>)
    requires Collected(h, len, freq, leaves, n) && n < |freq| && freq[n] == 0
    ensures Collected(h, len, freq, leaves, n + 1)
  {
  }

  lemma OnlyOne(s: set<nat>, a: nat, b: nat)
    requires |s| < 2 && a in s && a != b
    ensures b !in s
  {
    assert |s - {a}| == 0;
  }

  /** Heap order for all positions, by establishing it from the last father upwards. */
  method Heapify(heap: array<nat>, len: nat, freq: seq<nat>, depth: seq<nat>)
    requires Nodes(heap[..], len, freq, depth) && 1 <= len
    modifies heap
    ensures Nodes(heap[..], len, freq, depth) && HeapFrom(heap[..], len, 1, freq, depth)
    ensures multiset(heap[..][1..len + 1]) == old(multiset(heap[..][1..len + 1]))
  {
    hide Smaller;
    var n := len / 2;
    while n >= 1
      invariant 0 <= n <= len / 2
      invariant Nodes(heap[..], len, freq, depth) && HeapFrom(heap[..], len, n + 1, freq, depth)
      invariant multiset(heap[..][1..len + 1]) == old(multiset(heap[..][1..len + 1]))
    {
      PqDownHeap(heap, len, n, freq, depth);
      n := n - 1;
    }
  }

  lemma FirstState(h: seq<nat>, len: nat, freq: seq<nat>, depth: seq<nat>, dl: seq<nat>, leaves: set<nat>, elems: nat)
    requires Nodes(h, len, freq, depth) && HeapFrom(h, len, 1, freq, depth)
    requires multiset(h[1..len + 1]) == multiset(leaves) && (forall n :: n in leaves ==> n < elems)
    requires 2 * elems <= |freq| == |depth| == |dl| && 2 * elems < |h| && 1 <= len <= elems
    ensures Merging(h, len, freq, depth, dl, leaves, elems, 0)
  {
    assert h[|h|..] == [];
  }

  /** The root joins the list as its first entry. */
  lemma LastState(h: seq<nat>, freq: seq<nat>, depth: seq<nat>, dl: seq<nat>, leaves: set<nat>, elems: nat, k: nat)
    requires Merging(h, 1, freq, depth, dl, leaves, elems, k) && 1 <= k
    ensures 2 * k + 1 < |h| && TreeList(h[|h| - 2 * k - 1 := h[1]], dl, freq, leaves, elems, k)
    ensures Summed(h, freq, elems, k) ==> Summed(h[|h| - 2 * k - 1 := h[1]], freq, elems, k)
  {
    hide *;
    RootFacts(h, freq, depth, dl, leaves, elems, k);
    var at := |h| - 2 * k;
    var g := h[at - 1 := h[1]];
    RootListed(h, g, at);
    SamePairs(h, g, dl, elems, k);
    RootFirst(h, g, at, freq);
    ListMade(g, dl, freq, leaves, elems, k);
    if Summed(h, freq, elems, k) {
      SameSums(h, g, freq, elems, k);
    }
  }

  lemma ListMade(h: seq<nat>, dl: seq<nat>, freq: seq<nat>, leaves: set<nat>, elems: nat, k: nat)
    requires 1 <= k < elems && elems + k <= |dl| == |freq| && 2 * k + 1 < |h| && (forall n :: n in leaves ==> n < elems)
    requires Pairs(h, dl, elems, k) && h[|h| - 2 * k - 1] == elems + k - 1
    requires multiset(h[|h| - 2 * k - 1..]) == multiset(Universe(leaves, elems, k))
    requires forall i :: |h| - 2 * k - 1 <= i < |h| ==> h[i] < |freq|
    requires forall i, j :: |h| - 2 * k - 1 <= i <= j < |h| ==> freq[h[j]] <= freq[h[i]]
    ensures TreeList(h, dl, freq, leaves, elems, k)
  {
    hide Pairs, Universe;
  }

  lemma RootFacts(h: seq<nat>, freq: seq<nat>, depth: seq<nat>, dl: seq<nat>, leaves: set<nat>, elems: nat, k: nat)
    requires Merging(h, 1, freq, depth, dl, leaves, elems, k) && 1 <= k
    ensures 2 * k + 1 < |h| && k < elems && elems + k <= |dl| == |freq| && h[1] == elems + k - 1
    ensures forall n :: n in leaves ==> n < elems
    ensures multiset(h[1..2]) + multiset(h[|h| - 2 * k..]) == multiset(Universe(leaves, elems, k))
    ensures Pairs(h, dl, elems, k) && ByFrequency(h, 1, |h| - 2 * k, freq)
  {
    hide HeapFrom, Universe, Pairs, ByFrequency, Nodes;
    assert h[1..2] == [h[1]];
  }

  lemma RootListed(h: seq<nat>, g: seq<nat>, at: nat)
    requires 2 <= at <= |h| && g == h[at - 1 := h[1]]
    ensures multiset(g[at - 1..]) == multiset(h[1..2]) + multiset(h[at..])
  {
    assert h[1..2] == [h[1]];
    assert g[at - 1..] == [h[1]] + h[at..];
  }

  lemma SamePairs(h: seq<nat>, g: seq<nat>, dl: seq<nat>, elems: nat, k: nat)
    requires Pairs(h, dl, elems, k) && |g| == |h|
    requires forall p :: |h| - 2 * k <= p < |h| ==> g[p] == h[p]
    ensures Pairs(g, dl, elems, k)
  {
    forall i | 0 <= i < k
      ensures Pair(g, dl, elems, i)
    {
      assert Pair(h, dl, elems, i);
      assert |h| - 2 * k <= |h| - 2 - 2 * i;
    }
  }

  lemma RootFirst(h: seq<nat>, g: seq<nat>, at: nat, freq: seq<nat>)
    requires 2 <= at <= |h| && ByFrequency(h, 1, at, freq) && g == h[at - 1 := h[1]]
    ensures forall i :: at - 1 <= i < |h| ==> g[i] < |freq|
    ensures forall i, j :: at - 1 <= i <= j < |h| ==> freq[g[j]] <= freq[g[i]]
  {
  }

  lemma NoMergesYet(h: seq<nat>, freq: seq<nat>, dl: seq<nat>, leaves: set<nat>, elems: nat)
    ensures Summed(h, freq, elems, 0)
    ensures elems <= |freq| && elems <= |dl| ==> SymbolsKept(freq, freq, dl, dl, leaves, elems)
  {
  }

  lemma KeptOn(freq: seq<nat>, f: seq<nat>, freq': seq<nat>, dl: seq<nat>, d: seq<nat>, dl': seq<nat>,
               leaves: set<nat>, elems: nat)
    requires SymbolsKept(freq, f, dl, d, leaves, elems) && SymbolsKept(f, freq', d, dl', leaves, elems)
    ensures SymbolsKept(freq, freq', dl, dl', leaves, elems)
  {
  }

  /** The do-while loop of `build_tree`: merge until one node is left. */
  method MergeAll(heap: array<nat>, depth: array<nat>, freq: array<nat>, dl: array<nat>,
                  len0: nat, ghost leaves: set<nat>, elems: nat) returns (k: nat)
    requires heap != depth && heap != freq && heap != dl && depth != freq && depth != dl && freq != dl
    requires Merging(heap[..], len0, freq[..], depth[..], dl[..], leaves, elems, 0) && 2 <= len0
    modifies heap, depth, freq, dl
    ensures TreeList(heap[..], dl[..], freq[..], leaves, elems, k) && Summed(heap[..], freq[..], elems, k)
    ensures SymbolsKept(old(freq[..]), freq[..], old(dl[..]), dl[..], leaves, elems)
  {
    hide *;
    NoMergesYet(heap[..], freq[..], dl[..], leaves, elems);
    var len := len0;
    k := 0;
    MergingSizes(heap[..], len, freq[..], depth[..], dl[..], leaves, elems, k);
    while len >= 2
      invariant 1 <= len && (len >= 2 || k >= 1)
      invariant Merging(heap[..], len, freq[..], depth[..], dl[..], leaves, elems, k)
      invariant Summed(heap[..], freq[..], elems, k)
      invariant SymbolsKept(old(freq[..]), freq[..], old(dl[..]), dl[..], leaves, elems)
      decreases len
    {
      ghost var f: seq<nat>, d: seq<nat> := freq[..], dl[..];
      MergeTwo(heap, depth, freq, dl, len, leaves, elems, k);
      KeptOn(old(freq[..]), f, freq[..], old(dl[..]), d, dl[..], leaves, elems);
      len := len - 1;
      k := k + 1;
    }
    LastState(heap[..], freq[..], depth[..], dl[..], leaves, elems, k);
    ghost var h: seq<nat> := heap[..];
    heap[heap.Length - 2 * k - 1] := heap[1];
    assert heap[..] == h[|h| - 2 * k - 1 := h[1]];
  }

  // ---------------------------------------------------------------- gen_bitlen, first pass

  /** Code length of the sons of a node of length `l`, cut at `max`. */
  function Deeper(l: nat, max: nat): nat {
    if l + 1 > max then max else l + 1
  }

  /** How many sons of inner node `elems + i` stand at position `h` or later. */
  ghost function SonsLeft(size: nat, h: nat, i: nat): nat {
    (if h + 2 + 2 * i <= size then 1 else 0) + (if h + 1 + 2 * i <= size then 1 else 0)
  }

  ghost function Copies(c: nat, w: nat): nat {
    if c == 0 then 0 else if c == 1 then w else w + w
  }

  /** Two sons weigh as much as their father, or one unit more when they are cut. */
  lemma SonsWeigh(l: nat, max: nat)
    requires l <= max && 1 <= max <= MAXBITS
    ensures 2 * Weight(Deeper(l, max)) == Weight(l) + if l == max then Weight(max) else 0
  {
  }

  lemma {:induction false} MultisetOnce(s: seq<nat>, u: set<nat>, i: nat, j: nat)
    requires multiset(s) == multiset(u) && i < j < |s|
    ensures s[i] != s[j]
  {
    var a, b, c := s[..i], s[i + 1..j], s[j + 1..];
    assert s == a + [s[i]] + b + [s[j]] + c;
    assert multiset(s) == multiset(a) + multiset{s[i]} + multiset(b) + multiset{s[j]} + multiset(c);
    assert multiset(u)[s[i]] <= 1;
  }

  /** Every node stands in the list once. */
  lemma ListOnce(h: seq<nat>, dl: seq<nat>, freq: seq<nat>, leaves: set<nat>, elems: nat, k: nat, p: nat, q: nat)
    requires TreeList(h, dl, freq, leaves, elems, k) && |h| - 2 * k - 1 <= p < |h| && |h| - 2 * k - 1 <= q < |h|
    requires p != q
    ensures h[p] != h[q]
  {
    var at := |h| - 2 * k - 1;
    if p < q {
      MultisetOnce(h[at..], Universe(leaves, elems, k), p - at, q - at);
    } else {
      MultisetOnce(h[at..], Universe(leaves, elems, k), q - at, p - at);
    }
  }

  /** ... and only nodes stand in it. */
  lemma ListNode(h: seq<nat>, dl: seq<nat>, freq: seq<nat>, leaves: set<nat>, elems: nat, k: nat, p: nat)
    requires TreeList(h, dl, freq, leaves, elems, k) && |h| - 2 * k - 1 <= p < |h|
    ensures h[p] in leaves || elems <= h[p] < elems + k
    ensures h[p] < |dl|
  {
    var at := |h| - 2 * k - 1;
    assert h[p] == h[at..][p - at];
    assert h[p] in multiset(h[at..]);
    UniverseMember(leaves, elems, k, h[p]);
  }

  lemma ListPosition(h: seq<nat>, dl: seq<nat>, freq: seq<nat>, leaves: set<nat>, elems: nat, k: nat, v: nat)
    returns (q: nat)
    requires TreeList(h, dl, freq, leaves, elems, k) && (v in leaves || elems <= v < elems + k)
    ensures |h| - 2 * k - 1 <= q < |h| && h[q] == v
  {
    var at := |h| - 2 * k - 1;
    UniverseMember(leaves, elems, k, v);
    assert v in multiset(h[at..]);
    var s := h[at..];
    var j :| 0 <= j < |s| && s[j] == v;
    q := at + j;
  }

  /** The father of the node at position `p` is inner node `elems + i` and stands before it;
      the sons of an inner node stand behind it. */
  lemma FatherFirst(h: seq<nat>, dl: seq<nat>, freq: seq<nat>, leaves: set<nat>, elems: nat, k: nat, p: nat)
    returns (i: nat, q: nat)
    requires TreeList(h, dl, freq, leaves, elems, k) && |h| - 2 * k <= p < |h|
    ensures i == (|h| - 1 - p) / 2 && i < k && h[p] < |dl| && dl[h[p]] == elems + i && h[p] < elems + i
    ensures |h| - 2 * k - 1 <= q < p && h[q] == elems + i
  {
    i := (|h| - 1 - p) / 2;
    assert Pair(h, dl, elems, i);
    assert p == |h| - 1 - 2 * i || p == |h| - 2 - 2 * i;
    q := ListPosition(h, dl, freq, leaves, elems, k, elems + i);
    if q > |h| - 2 * k - 1 {
      var i' := (|h| - 1 - q) / 2;
      assert Pair(h, dl, elems, i');
      assert q == |h| - 1 - 2 * i' || q == |h| - 2 - 2 * i';
    }
  }

  // ---------------------------------------------------------------- the tree is optimal

  /** Node `elems + i` has the frequencies of its sons together. */
  ghost predicate SonsSum(h: seq<nat>, freq: seq<nat>, elems: nat, i: nat)
    requires 2 * i + 2 <= |h|
  {
    var n, m := h[|h| - 1 - 2 * i], h[|h| - 2 - 2 * i];
    n < |freq| && m < |freq| && elems + i < |freq| && freq[elems + i] == freq[n] + freq[m]
  }

  ghost predicate Summed(h: seq<nat>, freq: seq<nat>, elems: nat, k: nat) {
    2 * k <= |h| && forall i :: 0 <= i < k ==> SonsSum(h, freq, elems, i)
  }

  /** One more merge. */
  lemma SummedMore(h: seq<nat>, g: seq<nat>, len: nat, k: nat, n: nat, m: nat, freq: seq<nat>, elems: nat)
    requires Merged(h, g, len, k, n, m, elems + k) && Summed(h, freq, elems, k)
    requires n < elems + k < |freq| && m < elems + k && forall p :: |h| - 2 * k <= p < |h| ==> h[p] < elems + k
    ensures Summed(g, freq[elems + k := freq[n] + freq[m]], elems, k + 1)
  {
    var f := freq[elems + k := freq[n] + freq[m]];
    forall i | 0 <= i < k + 1
      ensures SonsSum(g, f, elems, i)
    {
      if i < k {
        assert SonsSum(h, freq, elems, i);
        assert |h| - 2 * k <= |h| - 2 - 2 * i;
      }
    }
  }

  lemma SameSums(h: seq<nat>, g: seq<nat>, freq: seq<nat>, elems: nat, k: nat)
    requires Summed(h, freq, elems, k) && |g| == |h|
    requires forall p :: |h| - 2 * k <= p < |h| ==> g[p] == h[p]
    ensures Summed(g, freq, elems, k)
  {
    forall i | 0 <= i < k
      ensures SonsSum(g, freq, elems, i)
    {
      assert SonsSum(h, freq, elems, i);
      assert |h| - 2 * k <= |h| - 2 - 2 * i;
    }
  }

  /** The nodes that are listed after `i` merges. */
  ghost function Listed(h: seq<nat>, i: nat): set<nat>
    requires 2 * i <= |h|
  {
    set p | |h| - 2 * i <= p < |h| :: h[p]
  }

  /** The nodes that are active after `i` merges. */
  ghost function Active(h: seq<nat>, leaves: set<nat>, elems: nat, i: nat): set<nat>
    requires 2 * i <= |h|
  {
    Universe(leaves, elems, i) - Listed(h, i)
  }

  /** An active node stands before the listed ones. */
  lemma ActiveBefore(h: seq<nat>, dl: seq<nat>, freq: seq<nat>, leaves: set<nat>, elems: nat, k: nat, i: nat, v: nat)
    returns (p: nat)
    requires TreeList(h, dl, freq, leaves, elems, k) && i <= k && v in Active(h, leaves, elems, i)
    ensures |h| - 2 * k - 1 <= p < |h| - 2 * i && h[p] == v && v < elems + i && (v in leaves || elems <= v < elems + k)
  {
    hide TreeList;
    UniverseMember(leaves, elems, i, v);
    ListBounds(h, dl, freq, leaves, elems, k);
    p := ListPosition(h, dl, freq, leaves, elems, k, v);
  }

  lemma ListBounds(h: seq<nat>, dl: seq<nat>, freq: seq<nat>, leaves: set<nat>, elems: nat, k: nat)
    requires TreeList(h, dl, freq, leaves, elems, k)
    ensures (forall n :: n in leaves ==> n < elems) && 1 <= k && elems + k <= |dl| == |freq| && 2 * k + 1 < |h|
    ensures Pairs(h, dl, elems, k) && h[|h| - 2 * k - 1] == elems + k - 1
    ensures (forall i :: |h| - 2 * k - 1 <= i < |h| ==> h[i] < |freq|)
    ensures forall i, j :: |h| - 2 * k - 1 <= i <= j < |h| ==> freq[h[j]] <= freq[h[i]]
  {
  }

  /** The sons of node `elems + i` are active before merge `i`. */
  lemma SonActive(h: seq<nat>, dl: seq<nat>, freq: seq<nat>, leaves: set<nat>, elems: nat, k: nat, i: nat, p: nat)
    requires TreeList(h, dl, freq, leaves, elems, k) && i < k && |h| - 2 - 2 * i <= p < |h| - 2 * i
    ensures h[p] in Active(h, leaves, elems, i) && h[p] < elems + i
  {
    hide TreeList;
    ListBounds(h, dl, freq, leaves, elems, k);
    assert Pair(h, dl, elems, i);
    assert p == |h| - 1 - 2 * i || p == |h| - 2 - 2 * i;
    ListNode(h, dl, freq, leaves, elems, k, p);
    UniverseMember(leaves, elems, i, h[p]);
    forall q | |h| - 2 * i <= q < |h|
      ensures h[q] != h[p]
    {
      ListOnce(h, dl, freq, leaves, elems, k, p, q);
    }
  }

  /** Merge `i` joins the two least frequent active nodes. */
  lemma MergesLeast(h: seq<nat>, dl: seq<nat>, freq: seq<nat>, leaves: set<nat>, elems: nat, k: nat, i: nat)
    requires TreeList(h, dl, freq, leaves, elems, k) && i < k
    ensures 2 * i + 2 <= |h| && elems + k <= |freq| && Members(Active(h, leaves, elems, i), elems + i)
    ensures LeastTwo(Active(h, leaves, elems, i), freq, h[|h| - 1 - 2 * i], h[|h| - 2 - 2 * i])
  {
    hide TreeList, Pairs, Active;
    ListBounds(h, dl, freq, leaves, elems, k);
    var s, at := Active(h, leaves, elems, i), |h| - 2 * i;
    SonActive(h, dl, freq, leaves, elems, k, i, at - 1);
    SonActive(h, dl, freq, leaves, elems, k, i, at - 2);
    ListOnce(h, dl, freq, leaves, elems, k, at - 1, at - 2);
    forall v | v in s
      ensures v < elems + i && (v != h[at - 1] && v != h[at - 2] ==> freq[h[at - 2]] <= freq[v])
    {
      var p := ActiveBefore(h, dl, freq, leaves, elems, k, i, v);
    }
  }

  /** The active nodes after merge `i`. */
  lemma ActiveJoined(h: seq<nat>, dl: seq<nat>, freq: seq<nat>, leaves: set<nat>, elems: nat, k: nat, i: nat)
    requires TreeList(h, dl, freq, leaves, elems, k) && i < k
    ensures 2 * i + 2 <= |h|
    ensures Active(h, leaves, elems, i + 1) ==
            Joined(Active(h, leaves, elems, i), h[|h| - 1 - 2 * i], h[|h| - 2 - 2 * i], elems + i)
  {
    hide TreeList;
    ListBounds(h, dl, freq, leaves, elems, k);
    var at := |h| - 2 * i;
    forall p | at - 2 <= p < |h|
      ensures h[p] != elems + i
    {
      var j := (|h| - 1 - p) / 2;
      assert Pair(h, dl, elems, j);
      assert p == |h| - 1 - 2 * j || p == |h| - 2 - 2 * j;
    }
    assert Listed(h, i + 1) == Listed(h, i) + {h[at - 1], h[at - 2]};
    assert elems + i !in Listed(h, i + 1);
  }

  /** The frequencies of the inner nodes from `i` on. */
  ghost function Inner(freq: seq<nat>, elems: nat, i: nat, k: nat): nat
    requires elems + k <= |freq|
    decreases k - i
  {
    if k <= i then 0 else freq[elems + i] + Inner(freq, elems, i + 1, k)
  }

  /** No lengths cost less than the frequencies of the inner nodes. */
  lemma {:induction false} LowerBound(h: seq<nat>, dl: seq<nat>, freq: seq<nat>, leaves: set<nat>, elems: nat, k: nat,
                                      i: nat,
                                      l: seq<nat>, b: nat)
    requires TreeList(h, dl, freq, leaves, elems, k) && Summed(h, freq, elems, k) && i <= k
    requires |l| == elems + k <= |freq| && 2 * i <= |h| && Feasible(Active(h, leaves, elems, i), l, b)
    ensures Inner(freq, elems, i, k) <= Cost(Active(h, leaves, elems, i), freq, l)
    decreases k - i
  {
    hide TreeList, Feasible, Cost, Active, LeastTwo, Joined;
    var s := Active(h, leaves, elems, i);
    if i == k {
      CostNonNegative(s, freq, l);
    } else {
      var n, m, z := h[|h| - 1 - 2 * i], h[|h| - 2 - 2 * i], elems + i;
      MergesLeast(h, dl, freq, leaves, elems, k, i);
      ActiveJoined(h, dl, freq, leaves, elems, k, i);
      assert SonsSum(h, freq, elems, i);
      LeastIn(s, freq, n, m);
      var l' := Join(s, freq, l, b, n, m, z);
      LowerBound(h, dl, freq, leaves, elems, k, i + 1, l', b);
    }
  }

  lemma LeastIn(s: set<nat>, w: seq<nat>, n: nat, m: nat)
    requires Members(s, |w|) && LeastTwo(s, w, n, m)
    ensures n in s && m in s && n != m
  {
  }

  /** Position `q` of the list holds a node one deeper than its father. */
  ghost predicate Below(h: seq<nat>, dl: seq<nat>, elems: nat, q: nat) {
    q < |h| && var f := elems + (|h| - 1 - q) / 2; f < |dl| && h[q] < |dl| && dl[h[q]] == dl[f] + 1
  }

  /** The nodes before position `at` are marked with their depths. */
  ghost predicate Depths(h: seq<nat>, dl: seq<nat>, elems: nat, k: nat, at: nat) {
    && 1 <= k && elems + k <= |dl| && dl[elems + k - 1] == 0
    && forall q: nat :: |h| - 2 * k <= q < at ==> Below(h, dl, elems, q)
  }

  lemma DepthsStart(h: seq<nat>, dl: seq<nat>, elems: nat, k: nat)
    requires 1 <= k && elems + k <= |dl| && dl[elems + k - 1] == 0 && 2 * k <= |h|
    ensures Depths(h, dl, elems, k, |h| - 2 * k)
  {
  }

  /** The next node of the list. */
  lemma DepthsNext(h: seq<nat>, dl0: seq<nat>, dl: seq<nat>, freq: seq<nat>, leaves: set<nat>, elems: nat, k: nat,
                   at: nat)
    requires TreeList(h, dl0, freq, leaves, elems, k) && |dl| == |dl0| && |h| - 2 * k <= at < |h|
    requires Depths(h, dl, elems, k, at)
    ensures var d := elems + (|h| - 1 - at) / 2;
      h[at] < |dl| && d < elems + k && Depths(h, dl[h[at] := dl[d] + 1], elems, k, at + 1)
  {
    hide TreeList;
    ListBounds(h, dl0, freq, leaves, elems, k);
    var i, p := FatherFirst(h, dl0, freq, leaves, elems, k, at);
    var dl' := dl[h[at] := dl[elems + i] + 1];
    ListOnce(h, dl0, freq, leaves, elems, k, at, |h| - 2 * k - 1);
    forall q: nat | |h| - 2 * k <= q < at + 1
      ensures Below(h, dl', elems, q)
    {
      var j, r := FatherFirst(h, dl0, freq, leaves, elems, k, q);
      ListOnce(h, dl0, freq, leaves, elems, k, at, r);
      if q < at {
        assert Below(h, dl, elems, q);
        ListOnce(h, dl0, freq, leaves, elems, k, at, q);
      }
    }
  }

  /** The depths cost exactly the frequencies of the inner nodes. */
  lemma {:induction false} Attained(h: seq<nat>, dl0: seq<nat>, dl: seq<nat>, freq: seq<nat>, leaves: set<nat>,
                                    elems: nat,
                                    k: nat, i: nat, l: seq<nat>)
    requires TreeList(h, dl0, freq, leaves, elems, k) && Summed(h, freq, elems, k) && i <= k
    requires elems + k <= |dl| && l == dl[..elems + k] && elems + k <= |freq| && 2 * i <= |h|
    requires Depths(h, dl, elems, k, |h|)
    ensures Cost(Active(h, leaves, elems, i), freq, l) == Inner(freq, elems, i, k)
    decreases k - i
  {
    hide TreeList, Active, LeastTwo, Joined, Cost;
    var s := Active(h, leaves, elems, i);
    ListBounds(h, dl0, freq, leaves, elems, k);
    if i == k {
      RootFree(h, dl0, freq, leaves, elems, k, l);
    } else {
      var n, m, z := h[|h| - 1 - 2 * i], h[|h| - 2 - 2 * i], elems + i;
      MergesLeast(h, dl0, freq, leaves, elems, k, i);
      ActiveJoined(h, dl0, freq, leaves, elems, k, i);
      LeastIn(s, freq, n, m);
      assert SonsSum(h, freq, elems, i);
      assert Below(h, dl, elems, |h| - 1 - 2 * i) && Below(h, dl, elems, |h| - 2 - 2 * i);
      OneAbove(s, freq, l, l[z] + 1, n, m, z, l[z]);
      Attained(h, dl0, dl, freq, leaves, elems, k, i + 1, l);
    }
  }

  /** Only the root is active at the end, at depth 0. */
  lemma RootFree(h: seq<nat>, dl: seq<nat>, freq: seq<nat>, leaves: set<nat>, elems: nat, k: nat, l: seq<nat>)
    requires TreeList(h, dl, freq, leaves, elems, k) && |l| == elems + k <= |freq| && 2 * k <= |h|
    requires l[elems + k - 1] == 0
    ensures Cost(Active(h, leaves, elems, k), freq, l) == 0
  {
    hide TreeList, Active;
    ListBounds(h, dl, freq, leaves, elems, k);
    var s := Active(h, leaves, elems, k);
    forall v | 0 <= v < |l| && v in s
      ensures Costs(freq, l)[v] == 0
    {
      var p := ActiveBefore(h, dl, freq, leaves, elems, k, k, v);
      PaidLess(freq[v], 0, 0);
    }
    OverZero(s, Costs(freq, l), |l|);
  }

  /** Of all lengths for `leaves` whose Kraft sum is at most one, none are cheaper. */
  ghost predicate Optimal(leaves: set<nat>, freq: seq<nat>, lens: seq<nat>)
    requires |lens| <= |freq|
  {
    forall l: seq<nat>, b: nat :: |l| == |lens| && Feasible(leaves, l, b) ==>
      Cost(leaves, freq, lens) <= Cost(leaves, freq, l)
  }

  lemma NoneListed(h: seq<nat>, leaves: set<nat>, elems: nat)
    ensures Active(h, leaves, elems, 0) == leaves
  {
  }

  /** Depths in the tree are optimal lengths. */
  lemma DepthsOptimal(h: seq<nat>, dl0: seq<nat>, dl: seq<nat>, freq: seq<nat>, leaves: set<nat>, elems: nat, k: nat)
    requires TreeList(h, dl0, freq, leaves, elems, k) && Summed(h, freq, elems, k) && |dl| == |dl0|
    requires Depths(h, dl, elems, k, |h|)
    ensures elems <= |dl| && elems <= |freq| && Optimal(leaves, freq, dl[..elems])
  {
    hide TreeList, Summed, Depths, Cost, Active, Inner, Feasible;
    ListBounds(h, dl0, freq, leaves, elems, k);
    NoneListed(h, leaves, elems);
    var all := dl[..elems + k];
    Attained(h, dl0, dl, freq, leaves, elems, k, 0, all);
    CostLonger(leaves, freq, dl[..elems], all);
    forall l: seq<nat>, b: nat | |l| == elems && Feasible(leaves, l, b)
      ensures Cost(leaves, freq, dl[..elems]) <= Cost(leaves, freq, l)
    {
      var longer := l + all[elems..];
      FeasibleLonger(leaves, l, longer, b);
      CostLonger(leaves, freq, l, longer);
      LowerBound(h, dl0, freq, leaves, elems, k, 0, longer, b);
    }
  }

  /** A more frequent symbol has no longer code. */
  ghost predicate Monotone(leaves: set<nat>, freq: seq<nat>, lens: seq<nat>)
    requires |lens| <= |freq|
  {
    forall a, b :: a in leaves && b in leaves && a < |lens| && b < |lens| && freq[a] < freq[b] ==> lens[b] <= lens[a]
  }

  lemma OptimalMonotone(leaves: set<nat>, freq: seq<nat>, lens: seq<nat>, b: nat)
    requires |lens| <= |freq| && Optimal(leaves, freq, lens) && Feasible(leaves, lens, b)
    ensures Monotone(leaves, freq, lens)
  {
    hide Cost, Feasible;
    forall x, y | x in leaves && y in leaves && x < |lens| && y < |lens| && freq[x] < freq[y]
      ensures lens[y] <= lens[x]
    {
      if lens[x] < lens[y] {
        var k := SwapMore(leaves, freq, lens, b, x, y);
        assert false;
      }
    }
  }

  /** The two ways to write a Kraft sum. */
  lemma {:induction false} KraftIsOver(leaves: set<nat>, lens: seq<nat>, n: nat)
    requires ValidLengths(lens) && n <= |lens| && forall i :: 0 <= i < |lens| ==> (lens[i] == 0 <==> i !in leaves)
    ensures Over(leaves, Spaces(lens, MAXBITS), n) == Kraft(lens[..n], MAXBITS)
  {
    if n != 0 {
      KraftIsOver(leaves, lens, n - 1);
      assert lens[..n][..n - 1] == lens[..n - 1] && lens[..n][n - 1] == lens[n - 1];
    }
  }

  lemma GoodFeasible(lens: seq<nat>, bl: seq<nat>, leaves: set<nat>, max: nat)
    requires GoodLengths(lens, bl, leaves, max) && Members(leaves, |lens|)
    ensures Feasible(leaves, lens, MAXBITS)
  {
    hide Kraft, Over, Shl;
    KraftIsOver(leaves, lens, |lens|);
    assert lens[..|lens|] == lens;
  }

  // ---------------------------------------------------------------- how deep a tree can be

  ghost function Fib(n: nat): nat {
    if n <= 1 then n else Fib(n - 1) + Fib(n - 2)
  }

  lemma {:induction false} FibGrows(n: nat)
    ensures Fib(n) <= Fib(n + 1)
  {
    if n > 1 {
      FibGrows(n - 1);
      FibGrows(n - 2);
    }
  }

  /** The other son of the same father. */
  ghost function Brother(h: seq<nat>, q: nat): int {
    if (|h| - 1 - q) % 2 == 0 then q - 1 else q + 1
  }

  /** Every step up from a node adds at least as much as the step before. */
  lemma {:induction false} Climb(h: seq<nat>, dl0: seq<nat>, dl: seq<nat>, freq: seq<nat>, leaves: set<nat>,
                                 elems: nat, k: nat,
                                 at: nat, q: nat, j: nat)
    requires TreeList(h, dl0, freq, leaves, elems, k) && Summed(h, freq, elems, k) && |dl| == |dl0|
    requires Depths(h, dl, elems, k, at) && |h| - 2 * k <= q < at <= |h|
    requires |h| - 2 * k <= Brother(h, q) < |h| && h[q] < |freq| && h[Brother(h, q)] < |freq|
    requires 1 <= j && Fib(j + 1) <= freq[h[q]] && Fib(j) <= freq[h[Brother(h, q)]]
    ensures h[q] < |dl| && elems + k <= |freq| && Fib(j + 1 + dl[h[q]]) <= freq[elems + k - 1]
    decreases q
  {
    hide TreeList, Fib;
    ListBounds(h, dl0, freq, leaves, elems, k);
    var i, r := FatherFirst(h, dl0, freq, leaves, elems, k, q);
    assert Below(h, dl, elems, q) && SonsSum(h, freq, elems, i);
    FibNext(j);
    if r == |h| - 2 * k - 1 {
      assert dl[h[q]] == 1;
    } else {
      var i', r' := FatherFirst(h, dl0, freq, leaves, elems, k, r);
      assert i < i';
      Climb(h, dl0, dl, freq, leaves, elems, k, at, r, j + 1);
    }
  }

  lemma FibNext(j: nat)
    ensures Fib(j + 2) == Fib(j + 1) + Fib(j)
  {
  }

  /** A deep node needs a high total frequency. */
  lemma DeepIsFrequent(h: seq<nat>, dl0: seq<nat>, dl: seq<nat>, freq: seq<nat>, leaves: set<nat>, elems: nat, k: nat,
                       at: nat)
    requires TreeList(h, dl0, freq, leaves, elems, k) && Summed(h, freq, elems, k) && |dl| == |dl0|
    requires Depths(h, dl, elems, k, at) && |h| - 2 * k <= at < |h| && elems <= |freq|
    requires forall n :: n in leaves ==> n < elems && freq[n] != 0
    ensures var d := elems + (|h| - 1 - at) / 2;
      d < |dl| && elems + k <= |freq| && Fib(dl[d] + 3) <= freq[elems + k - 1]
  {
    hide TreeList, Depths;
    ListBounds(h, dl0, freq, leaves, elems, k);
    DepthsNext(h, dl0, dl, freq, leaves, elems, k, at);
    var d := elems + (|h| - 1 - at) / 2;
    var i, r := FatherFirst(h, dl0, freq, leaves, elems, k, |h| - 1);
    ListNode(h, dl0, freq, leaves, elems, k, |h| - 1);
    assert freq[h[|h| - 1]] != 0;
    assert Fib(1) == 1 && Fib(2) == 1;
    Climb(h, dl0, dl[h[at] := dl[d] + 1], freq, leaves, elems, k, at + 1, at, 1);
  }

  /** Merging keeps the total frequency of the active nodes. */
  lemma {:induction false} TotalKept(h: seq<nat>, dl: seq<nat>, freq: seq<nat>, leaves: set<nat>, elems: nat, k: nat,
                                     i: nat)
    requires TreeList(h, dl, freq, leaves, elems, k) && Summed(h, freq, elems, k) && i <= k && 2 * i <= |h|
    ensures elems + k <= |freq| && Over(Active(h, leaves, elems, i), freq, elems + k) == freq[elems + k - 1]
    decreases k - i
  {
    hide TreeList, Active, Over, LeastTwo;
    ListBounds(h, dl, freq, leaves, elems, k);
    var s := Active(h, leaves, elems, i);
    if i == k {
      RootOnly(h, dl, freq, leaves, elems, k);
      TakeOut(s, freq, elems + k, elems + k - 1);
      OverZero(s - {elems + k - 1}, freq, elems + k);
    } else {
      var n, m, z := h[|h| - 1 - 2 * i], h[|h| - 2 - 2 * i], elems + i;
      MergesLeast(h, dl, freq, leaves, elems, k, i);
      ActiveJoined(h, dl, freq, leaves, elems, k, i);
      LeastIn(s, freq, n, m);
      assert SonsSum(h, freq, elems, i);
      TakeOut(s, freq, elems + k, n);
      TakeOut(s - {n}, freq, elems + k, m);
      var t := Joined(s, n, m, z);
      TakeOut(t, freq, elems + k, z);
      assert t - {z} == s - {n} - {m};
      TotalKept(h, dl, freq, leaves, elems, k, i + 1);
    }
  }

  lemma RootOnly(h: seq<nat>, dl: seq<nat>, freq: seq<nat>, leaves: set<nat>, elems: nat, k: nat)
    requires TreeList(h, dl, freq, leaves, elems, k) && 2 * k <= |h|
    ensures 1 <= k && Active(h, leaves, elems, k) == {elems + k - 1}
  {
    hide TreeList;
    ListBounds(h, dl, freq, leaves, elems, k);
    var s, root := Active(h, leaves, elems, k), elems + k - 1;
    UniverseMember(leaves, elems, k, root);
    forall q | |h| - 2 * k <= q < |h|
      ensures h[q] != root
    {
      ListOnce(h, dl, freq, leaves, elems, k, q, |h| - 2 * k - 1);
    }
    forall v | v in s
      ensures v == root
    {
      var p := ActiveBefore(h, dl, freq, leaves, elems, k, k, v);
    }
  }

  /** The frequency of the root is that of all leaves. */
  lemma RootIsTotal(h: seq<nat>, dl: seq<nat>, freq: seq<nat>, leaves: set<nat>, elems: nat, k: nat)
    requires TreeList(h, dl, freq, leaves, elems, k) && Summed(h, freq, elems, k)
    ensures 1 <= k && elems + k <= |freq| && Over(leaves, freq, elems) == freq[elems + k - 1]
  {
    hide TreeList, Summed, Active;
    ListBounds(h, dl, freq, leaves, elems, k);
    NoneListed(h, leaves, elems);
    TotalKept(h, dl, freq, leaves, elems, k, 0);
    OverLonger(leaves, freq, freq, elems, elems + k);
  }

  /** Weights and cut sons of the inner nodes already measured: `p1` holds the weight of
      their sons still to come, `p2` the number of those that are cut. */
  ghost predicate Frontier(h: seq<nat>, dl: seq<nat>, elems: nat, k: nat, at: nat, max: nat, p1: seq<int>, p2: seq<int>)
    requires 2 * k + 1 <= |h| && |h| - 2 * k - 1 <= at <= |h| && max <= MAXBITS
  {
    && |p1| == |p2| == elems + k
    && (forall q :: |h| - 2 * k - 1 <= q < at ==> h[q] < |dl| && dl[h[q]] <= max)
    && (forall q :: |h| - 2 * k - 1 <= q < at && elems <= h[q] < elems + k ==>
          && p1[h[q]] == Copies(SonsLeft(|h|, at, h[q] - elems), Weight(Deeper(dl[h[q]], max)))
          && p2[h[q]] == if dl[h[q]] == max then SonsLeft(|h|, at, h[q] - elems) else 0)
    && (forall q :: at <= q < |h| && elems <= h[q] < elems + k ==> p1[h[q]] == 0 && p2[h[q]] == 0)
    && (forall v :: 0 <= v < elems ==> p1[v] == 0 && p2[v] == 0)
  }

  /** Nodes from position `at` on still hold their father; measured leaves are in `lz`. */
  ghost predicate Measured(h: seq<nat>, dl0: seq<nat>, dl: seq<nat>, leaves: set<nat>, elems: nat, k: nat,
                           at: nat, max: nat, lz: seq<nat>)
  {
    && 2 * k + 1 <= |h| && |h| - 2 * k - 1 <= at <= |h| && |dl| == |dl0| && |lz| == elems <= |dl|
    && (forall q :: |h| - 2 * k - 1 <= q < |h| ==> h[q] < |dl|)
    && (forall q :: at <= q < |h| ==> dl[h[q]] == dl0[h[q]])
    && (forall q :: |h| - 2 * k - 1 <= q < at && h[q] < elems ==> lz[h[q]] == dl[h[q]] && 1 <= lz[h[q]] <= max)
    && (forall q :: at <= q < |h| && h[q] < elems ==> lz[h[q]] == 0)
    && (forall n :: 0 <= n < elems && n !in leaves ==> lz[n] == 0 && dl[n] == dl0[n])
  }

  /** The sums kept by the first pass: weights of measured leaves and of sons to come exceed
      `2^15` by one unit for each of the `e` inner nodes at the limit, all sons of those are
      cut, and enough leaves stand at the limit. */
  ghost predicate Account(kraft: int, s1: int, s2: int, e: nat, overflow: int, atLimit: int, max: nat)
    requires max <= MAXBITS
  {
    && kraft + s1 == Pow2(MAXBITS) + Shl(e, MAXBITS - max)
    && overflow + s2 == 2 * e
    && e <= atLimit + s2
  }

  /** Ghost sums after the node at position `at`, of length `bits`, is measured. */
  ghost function Moved(p: seq<int>, father: nat, n: nat, less: int, more: int, inner: bool): seq<int>
    requires father < |p| && (inner ==> n < |p|)
  {
    var p' := p[father := p[father] - less];
    if inner then p'[n := more] else p'
  }

  lemma MovedSum(p: seq<int>, father: nat, n: nat, less: int, more: int, inner: bool)
    requires father < |p| && (inner ==> n < |p| && n != father && p[n] == 0)
    ensures Sum(Moved(p, father, n, less, more, inner)) == Sum(p) - less + if inner then more else 0
  {
    hide Sum;
    SumUpdate(p, father, p[father] - less);
    if inner {
      SumUpdate(p[father := p[father] - less], n, more);
    }
  }

  lemma SonsStep(size: nat, at: nat, i: nat, j: nat)
    requires at < size && i == (size - 1 - at) / 2
    ensures SonsLeft(size, at + 1, j) == SonsLeft(size, at, j) - if i == j then 1 else 0
    ensures j < i ==> SonsLeft(size, at + 1, j) == 2
  {
  }

  /** The sums after one step, as functions of the step. */
  ghost function NextP1(p1: seq<int>, d: nat, n: nat, bits: nat, max: nat, elems: nat): seq<int>
    requires d < |p1| && n < |p1| && bits <= max <= MAXBITS
  {
    Moved(p1, d, n, Weight(bits), 2 * Weight(Deeper(bits, max)), n >= elems)
  }

  ghost function NextP2(p2: seq<int>, d: nat, n: nat, ld: nat, bits: nat, max: nat, elems: nat): seq<int>
    requires d < |p2| && n < |p2|
  {
    Moved(p2, d, n, if ld == max then 1 else 0, if bits == max then 2 else 0, n >= elems)
  }

  /** One measured inner node after the step. */
  lemma FrontierEntry(h: seq<nat>, dl: seq<nat>, elems: nat, k: nat, at: nat, max: nat, p1: seq<int>, p2: seq<int>,
                      i: nat, r: nat)
    requires 2 * k + 1 <= |h| && |h| - 2 * k <= at < |h| && 1 <= max <= MAXBITS
    requires Frontier(h, dl, elems, k, at, max, p1, p2)
    requires i == (|h| - 1 - at) / 2 && i < k && h[at] < elems + i && elems + i < |dl| && dl[elems + i] <= max
    requires |h| - 2 * k - 1 <= r <= at && elems <= h[r] < elems + k
    requires r < at ==> h[r] != h[at]
    ensures
      var n, d, x := h[at], elems + i, h[r];
      var bits := Deeper(dl[d], max);
      var dl' := dl[n := bits];
      && dl'[x] <= max
      && NextP1(p1, d, n, bits, max, elems)[x] == Copies(SonsLeft(|h|, at + 1, x - elems), Weight(Deeper(dl'[x], max)))
      && NextP2(p2, d, n, dl[d], bits, max, elems)[x] == if dl'[x] == max then SonsLeft(|h|, at + 1, x - elems) else 0
  {
    hide Weight;
    SonsStep(|h|, at, i, h[r] - elems);
  }

  lemma FrontierStep(h: seq<nat>, dl0: seq<nat>, dl: seq<nat>, freq: seq<nat>, leaves: set<nat>, elems: nat, k: nat,
                     at: nat, max: nat, p1: seq<int>, p2: seq<int>)
    requires TreeList(h, dl0, freq, leaves, elems, k) && |dl| == |dl0| && 1 <= max <= MAXBITS
    requires |h| - 2 * k <= at < |h| && Frontier(h, dl, elems, k, at, max, p1, p2)
    ensures
      var i, n := (|h| - 1 - at) / 2, h[at];
      && i < k && n < elems + i && elems + i < |dl| && dl0[n] == elems + i && dl[elems + i] <= max
      && var d := elems + i;
         var bits := Deeper(dl[d], max);
      && Frontier(h, dl[n := bits], elems, k, at + 1, max,
                  NextP1(p1, d, n, bits, max, elems), NextP2(p2, d, n, dl[d], bits, max, elems))
      && (n >= elems ==> p1[n] == 0 && p2[n] == 0)
  {
    var i, q := FatherFirst(h, dl0, freq, leaves, elems, k, at);
    var n, d := h[at], elems + i;
    var bits := Deeper(dl[d], max);
    var p1', p2' := NextP1(p1, d, n, bits, max, elems), NextP2(p2, d, n, dl[d], bits, max, elems);
    var dl' := dl[n := bits];
    hide TreeList, Weight, Copies, SonsLeft;
    forall r | |h| - 2 * k - 1 <= r < |h| && r != at
      ensures h[r] != h[at]
    {
      ListOnce(h, dl0, freq, leaves, elems, k, r, at);
    }
    forall r | |h| - 2 * k - 1 <= r < at + 1 && elems <= h[r] < elems + k
      ensures p1'[h[r]] == Copies(SonsLeft(|h|, at + 1, h[r] - elems), Weight(Deeper(dl'[h[r]], max)))
      ensures p2'[h[r]] == if dl'[h[r]] == max then SonsLeft(|h|, at + 1, h[r] - elems) else 0
    {
      FrontierEntry(h, dl, elems, k, at, max, p1, p2, i, r);
    }
    forall r | at + 1 <= r < |h| && elems <= h[r] < elems + k
      ensures p1'[h[r]] == 0 && p2'[h[r]] == 0
    {
      ListOnce(h, dl0, freq, leaves, elems, k, r, q);
    }
  }

  /** The sums balance again after a node of length `bits` below a node of length `ld`. */
  lemma AccountStep(kraft: int, s1: int, s2: int, e: nat, overflow: int, atLimit: int, max: nat, ld: nat, inner: bool)
    requires 1 <= max <= MAXBITS && ld <= max && Account(kraft, s1, s2, e, overflow, atLimit, max)
    ensures
      var bits := Deeper(ld, max);
      var cut, full := if ld == max then 1 else 0, if bits == max then 1 else 0;
      if inner then
        Account(kraft, s1 - Weight(bits) + 2 * Weight(Deeper(bits, max)), s2 - cut + 2 * full, e + full,
                overflow + cut, atLimit, max)
      else
        Account(kraft + Weight(bits), s1 - Weight(bits), s2 - cut, e, overflow + cut, atLimit + full, max)
  {
    var bits := Deeper(ld, max);
    SonsWeigh(bits, max);
    ShlAdd(e, 1, MAXBITS - max);
  }

  lemma MeasuredStep(h: seq<nat>, dl0: seq<nat>, dl: seq<nat>, freq: seq<nat>, leaves: set<nat>, elems: nat, k: nat,
                     at: nat, max: nat, lz: seq<nat>, bits: nat)
    requires TreeList(h, dl0, freq, leaves, elems, k) && 1 <= bits <= max
    requires |h| - 2 * k <= at < |h| && Measured(h, dl0, dl, leaves, elems, k, at, max, lz)
    ensures h[at] < |dl| && (h[at] < elems ==> lz[h[at]] == 0 && h[at] in leaves)
    ensures Measured(h, dl0, dl[h[at] := bits], leaves, elems, k, at + 1, max,
                     if h[at] < elems then lz[h[at] := bits] else lz)
  {
    ListNode(h, dl0, freq, leaves, elems, k, at);
    forall r | |h| - 2 * k - 1 <= r < |h| && r != at
      ensures h[r] != h[at]
    {
      ListOnce(h, dl0, freq, leaves, elems, k, r, at);
    }
    hide TreeList;
  }

  /** `bl` counts the measured leaves by length. */
  ghost predicate Histogram(bl: seq<nat>, lz: seq<nat>) {
    && |bl| == MAXBITS + 1 && bl[0] == 0
    && forall b :: 1 <= b <= MAXBITS ==> bl[b] == |Filter(lz, b)|
  }

  lemma HistogramStep(bl: seq<nat>, lz: seq<nat>, n: nat, bits: nat)
    requires Histogram(bl, lz) && n < |lz| && lz[n] == 0 && 1 <= bits <= MAXBITS
    ensures Histogram(bl[bits := bl[bits] + 1], lz[n := bits])
  {
    var bl', lz' := bl[bits := bl[bits] + 1], lz[n := bits];
    forall b | 1 <= b <= MAXBITS
      ensures bl'[b] == |Filter(lz', b)|
    {
      FilterUpdate(lz, n, bits, b);
    }
  }

  /** Number of leaves at positions `lo..hi`. */
  ghost function LeafCount(h: seq<nat>, lo: nat, hi: nat, elems: nat): nat
    requires lo <= hi <= |h|
  {
    if lo == hi then 0 else LeafCount(h, lo, hi - 1, elems) + if h[hi - 1] < elems then 1 else 0
  }

  /** Sum of the counts of lengths 1..m. */
  ghost function Total(bl: seq<nat>, m: nat): nat
    requires m < |bl|
  {
    if m == 0 then 0 else Total(bl, m - 1) + bl[m]
  }

  lemma {:induction false} TotalUpdate(bl: seq<nat>, m: nat, b: nat, v: nat)
    requires m < |bl| && 1 <= b < |bl|
    ensures Total(bl[b := v], m) == if b <= m then Total(bl, m) - bl[b] + v else Total(bl, m)
  {
    if m != 0 {
      TotalUpdate(bl, m - 1, b, v);
    }
  }

  lemma {:induction false} TotalZero(bl: seq<nat>, m: nat)
    requires m < |bl| && forall b :: 1 <= b <= m ==> bl[b] == 0
    ensures Total(bl, m) == 0
  {
    if m != 0 {
      TotalZero(bl, m - 1);
    }
  }

  /** All that the first pass keeps. */
  ghost predicate PassOne(h: seq<nat>, dl0: seq<nat>, dl: seq<nat>, bl: seq<nat>, freq: seq<nat>, leaves: set<nat>,
                          elems: nat, k: nat, at: nat, max: nat, lz: seq<nat>, overflow: int,
                          p1: seq<int>, p2: seq<int>, e: nat)
  {
    && 1 <= max <= MAXBITS && |bl| == MAXBITS + 1 && |dl| == |dl0| && |p1| == |p2| == elems + k
    && TreeList(h, dl0, freq, leaves, elems, k)
    && Measured(h, dl0, dl, leaves, elems, k, at, max, lz) && ValidLengths(lz)
    && Frontier(h, dl, elems, k, at, max, p1, p2)
    && Histogram(bl, lz) && Total(bl, max) == LeafCount(h, |h| - 2 * k - 1, at, elems)
    && Account(Kraft(lz, MAXBITS), Sum(p1), Sum(p2), e, overflow, bl[max], max)
  }

  /** One round of the first pass. */
  lemma PassOneStep(h: seq<nat>, dl0: seq<nat>, dl: seq<nat>, bl: seq<nat>, freq: seq<nat>, leaves: set<nat>,
                    elems: nat, k: nat, at: nat, max: nat, lz: seq<nat>, overflow: int,
                    p1: seq<int>, p2: seq<int>, e: nat)
    returns (d: nat, lz': seq<nat>, p1': seq<int>, p2': seq<int>, e': nat)
    requires PassOne(h, dl0, dl, bl, freq, leaves, elems, k, at, max, lz, overflow, p1, p2, e)
    requires |h| - 2 * k <= at < |h|
    ensures d == elems + (|h| - 1 - at) / 2
    ensures h[at] < |dl| && dl[h[at]] == d < |dl| && dl[d] <= max && |bl| == MAXBITS + 1 && max <= MAXBITS
    ensures
      var bits := Deeper(dl[d], max);
      PassOne(h, dl0, dl[h[at] := bits], if h[at] < elems then bl[bits := bl[bits] + 1] else bl, freq, leaves,
              elems, k, at + 1, max, lz', overflow + (if dl[d] + 1 > max then 1 else 0), p1', p2', e')
    ensures h[at] < elems ==> h[at] in leaves
    ensures |h| - 2 * k <= at + 1
  {
    hide TreeList, Measured, Frontier, Histogram, Kraft, Account, Total, Weight, Sum;
    FrontierStep(h, dl0, dl, freq, leaves, elems, k, at, max, p1, p2);
    var n := h[at];
    d := elems + (|h| - 1 - at) / 2;
    var ld, inner := dl[d], n >= elems;
    var bits := Deeper(ld, max);
    DadKept(h, dl0, dl, leaves, elems, k, at, max, lz);
    assert 1 <= bits <= max;
    MeasuredStep(h, dl0, dl, freq, leaves, elems, k, at, max, lz, bits);
    PassOneSums(elems, k, n, d, ld, max, p1, p2);
    AccountStep(Kraft(lz, MAXBITS), Sum(p1), Sum(p2), e, overflow, bl[max], max, ld, inner);
    p1', p2' := NextP1(p1, d, n, bits, max, elems), NextP2(p2, d, n, ld, bits, max, elems);
    if inner {
      lz', e' := lz, e + if bits == max then 1 else 0;
    } else {
      lz', e' := lz[n := bits], e;
      HistogramStep(bl, lz, n, bits);
      KraftUpdate(lz, n, bits, MAXBITS);
      TotalUpdate(bl, max, bits, bl[bits] + 1);
    }
  }

  lemma DadKept(h: seq<nat>, dl0: seq<nat>, dl: seq<nat>, leaves: set<nat>, elems: nat, k: nat, at: nat, max: nat,
                lz: seq<nat>)
    requires Measured(h, dl0, dl, leaves, elems, k, at, max, lz) && at < |h|
    ensures h[at] < |dl| == |dl0| && dl[h[at]] == dl0[h[at]]
    ensures |lz| == elems
  {
  }

  lemma PassOneSums(elems: nat, k: nat, n: nat, d: nat, ld: nat, max: nat, p1: seq<int>, p2: seq<int>)
    requires |p1| == |p2| == elems + k && n < d < elems + k && ld <= max <= MAXBITS && 1 <= max
    requires n >= elems ==> p1[n] == 0 && p2[n] == 0
    ensures
      var bits, inner := Deeper(ld, max), n >= elems;
      && Sum(NextP1(p1, d, n, bits, max, elems)) == Sum(p1) - Weight(bits)
        + (if inner then 2 * Weight(Deeper(bits, max)) else 0)
      && Sum(NextP2(p2, d, n, ld, bits, max, elems))
           == Sum(p2) - (if ld == max then 1 else 0) + (if inner && bits == max then 2 else 0)
  {
    hide Weight, Moved, Sum;
    var bits, inner := Deeper(ld, max), n >= elems;
    MovedSum(p1, d, n, Weight(bits), 2 * Weight(Deeper(bits, max)), inner);
    MovedSum(p2, d, n, if ld == max then 1 else 0, if bits == max then 2 else 0, inner);
  }

  /** The first pass starts with the root at length 0. */
  lemma PassOneStart(h: seq<nat>, dl0: seq<nat>, dl: seq<nat>, bl: seq<nat>, freq: seq<nat>, leaves: set<nat>,
                     elems: nat, k: nat, max: nat)
    returns (lz: seq<nat>, p1: seq<int>, p2: seq<int>)
    requires TreeList(h, dl0, freq, leaves, elems, k) && 1 <= max <= MAXBITS
    requires dl == dl0[elems + k - 1 := 0] && |bl| == MAXBITS + 1 && forall b :: 0 <= b <= MAXBITS ==> bl[b] == 0
    ensures |h| - 2 * k <= |h|
    ensures PassOne(h, dl0, dl, bl, freq, leaves, elems, k, |h| - 2 * k, max, lz, 0, p1, p2, 0)
  {
    var base, root := |h| - 2 * k - 1, elems + k - 1;
    lz := seq(elems, _ => 0);
    var zero: seq<int> := seq(elems + k, _ => 0);
    p1, p2 := zero[root := 2 * Weight(Deeper(0, max))], zero;
    SumZero(zero);
    SumUpdate(zero, root, 2 * Weight(Deeper(0, max)));
    SonsWeigh(0, max);
    ShlZero(MAXBITS - max);
    ZeroLengths(lz);
    TotalZero(bl, max);
    assert LeafCount(h, base, base + 1, elems) == 0;
    forall r | base < r < |h|
      ensures h[r] != root && h[r] < |dl|
    {
      ListOnce(h, dl0, freq, leaves, elems, k, base, r);
      ListNode(h, dl0, freq, leaves, elems, k, r);
    }
    assert Measured(h, dl0, dl, leaves, elems, k, base + 1, max, lz) by { hide TreeList; }
    hide TreeList, Weight;
    assert SonsLeft(|h|, base + 1, k - 1) == 2;
    assert Frontier(h, dl, elems, k, base + 1, max, p1, p2);
  }

  lemma {:induction false} ZeroLengths(lz: seq<nat>)
    requires forall i :: 0 <= i < |lz| ==> lz[i] == 0
    ensures ValidLengths(lz) && Kraft(lz, MAXBITS) == 0
    ensures forall b :: 1 <= b ==> |Filter(lz, b)| == 0
  {
    if |lz| != 0 {
      ZeroLengths(lz[..|lz| - 1]);
    }
  }

  ghost predicate UnusedZero(dl: seq<nat>, leaves: set<nat>, elems: nat) {
    elems <= |dl| && forall n :: 0 <= n < elems && n !in leaves ==> dl[n] == 0
  }

  /** What the first pass leaves: lengths cut at `max` for exactly the leaves, their counts,
      and a Kraft sum that is too large by one unit for every two cut nodes. */
  ghost predicate CutLengths(h: seq<nat>, lens: seq<nat>, bl: seq<nat>, leaves: set<nat>, k: nat, max: nat,
                             overflow: int) {
    && ValidLengths(lens) && 1 <= max <= MAXBITS && |bl| == MAXBITS + 1 && 2 * k + 1 <= |h|
    && (forall n :: 0 <= n < |lens| ==> lens[n] <= max && (lens[n] == 0 <==> n !in leaves))
    && Histogram(bl, lens) && Total(bl, max) == LeafCount(h, |h| - 2 * k - 1, |h|, |lens|)
    && 0 <= overflow && overflow % 2 == 0 && overflow / 2 <= bl[max]
    && Kraft(lens, MAXBITS) == Pow2(MAXBITS) + Shl(overflow / 2, MAXBITS - max)
  }

  /** At the end of the first pass no weight is left to come. */
  lemma PassOneEnd(h: seq<nat>, dl0: seq<nat>, dl: seq<nat>, bl: seq<nat>, freq: seq<nat>, leaves: set<nat>,
                   elems: nat, k: nat, max: nat, lz: seq<nat>, overflow: int, p1: seq<int>, p2: seq<int>, e: nat)
    requires PassOne(h, dl0, dl, bl, freq, leaves, elems, k, |h|, max, lz, overflow, p1, p2, e)
    requires UnusedZero(dl0, leaves, elems)
    ensures elems <= |dl| && CutLengths(h, dl[..elems], bl, leaves, k, max, overflow)
  {
    hide Kraft, Histogram, Total;
    forall v | 0 <= v < elems + k
      ensures p1[v] == 0 && p2[v] == 0
    {
      if elems <= v {
        var q := ListPosition(h, dl0, freq, leaves, elems, k, v);
        assert SonsLeft(|h|, |h|, v - elems) == 0;
      }
    }
    SumZero(p1);
    SumZero(p2);
    forall n | 0 <= n < elems
      ensures lz[n] == dl[n] <= max && (lz[n] == 0 <==> n !in leaves)
    {
      if n in leaves {
        var q := ListPosition(h, dl0, freq, leaves, elems, k, n);
      }
    }
    assert lz == dl[..elems];
  }

  /** The first pass up to position `at`, for some ghost sums. */
  ghost predicate PassAt(h: seq<nat>, dl0: seq<nat>, dl: seq<nat>, bl: seq<nat>, freq: seq<nat>, leaves: set<nat>,
                         elems: nat, k: nat, at: nat, max: nat, overflow: int)
  {
    exists lz: seq<nat>, p1: seq<int>, p2: seq<int>, e: nat ::
      PassOne(h, dl0, dl, bl, freq, leaves, elems, k, at, max, lz, overflow, p1, p2, e)
  }

  /** The first pass of `gen_bitlen`: cut code lengths and count the nodes that were cut. */
  method FirstPass(heap: array<nat>, dl: array<nat>, bl: array<nat>, ghost freq: seq<nat>, ghost leaves: set<nat>,
                   elems: nat, maxCode: nat, k: nat, max: nat)
    returns (overflow: int)
    requires heap != dl && heap != bl && dl != bl && bl.Length == MAXBITS + 1 && 1 <= max <= MAXBITS
    requires TreeList(heap[..], dl[..], freq, leaves, elems, k)
    requires maxCode < elems && forall n :: n in leaves ==> n <= maxCode
    requires UnusedZero(dl[..], leaves, elems) && Summed(heap[..], freq, elems, k) && Occurring(freq, leaves, elems)
    modifies dl, bl
    ensures elems <= dl.Length && CutLengths(heap[..], dl[..elems], bl[..], leaves, k, max, overflow)
    ensures Exact(heap[..], dl[..], freq, elems, k, heap.Length, max, overflow)
  {
    hide *;
    ghost var h: seq<nat>, dl0: seq<nat> := heap[..], dl[..];
    MeasureRoot(heap, dl, bl, freq, leaves, elems, k, max);
    var at := heap.Length - 2 * k;
    overflow := 0;
    while at < heap.Length
      invariant heap.Length - 2 * k <= at <= heap.Length && heap[..] == h
      invariant PassAt(h, dl0, dl[..], bl[..], freq, leaves, elems, k, at, max, overflow)
      invariant Exact(h, dl[..], freq, elems, k, at, max, overflow)
    {
      overflow := MeasureNext(heap, dl, bl, dl0, freq, leaves, elems, maxCode, k, at, max, overflow);
      at := at + 1;
    }
    PassAtEnd(h, dl0, dl[..], bl[..], freq, leaves, elems, k, max, overflow);
    assert dl[..][..elems] == dl[..elems];
  }

  lemma PassAtEnd(h: seq<nat>, dl0: seq<nat>, dl: seq<nat>, bl: seq<nat>, freq: seq<nat>, leaves: set<nat>,
                  elems: nat, k: nat, max: nat, overflow: int)
    requires PassAt(h, dl0, dl, bl, freq, leaves, elems, k, |h|, max, overflow) && UnusedZero(dl0, leaves, elems)
    ensures elems <= |dl| && CutLengths(h, dl[..elems], bl, leaves, k, max, overflow)
  {
    hide PassOne, CutLengths;
    var lz: seq<nat>, p1: seq<int>, p2: seq<int>, e: nat :|
      PassOne(h, dl0, dl, bl, freq, leaves, elems, k, |h|, max, lz, overflow, p1, p2, e);
    PassOneEnd(h, dl0, dl, bl, freq, leaves, elems, k, max, lz, overflow, p1, p2, e);
  }

  method MeasureRoot(heap: array<nat>, dl: array<nat>, bl: array<nat>, ghost freq: seq<nat>, ghost leaves: set<nat>,
                     ghost elems: nat, k: nat, ghost max: nat)
    requires heap != dl && heap != bl && dl != bl && bl.Length == MAXBITS + 1 && 1 <= max <= MAXBITS
    requires TreeList(heap[..], dl[..], freq, leaves, elems, k)
    modifies dl, bl
    ensures 2 * k <= heap.Length
    ensures PassAt(heap[..], old(dl[..]), dl[..], bl[..], freq, leaves, elems, k, heap.Length - 2 * k, max, 0)
    ensures Exact(heap[..], dl[..], freq, elems, k, heap.Length - 2 * k, max, 0)
  {
    ListSizes(heap[..], dl[..], freq, leaves, elems, k);
    hide TreeList, PassOne;
    ghost var dl0: seq<nat> := dl[..];
    ClearCounts(bl);
    var at := heap.Length - 2 * k - 1;
    dl[heap[at]] := 0;
    assert dl[..] == dl0[elems + k - 1 := 0];
    DepthsStart(heap[..], dl[..], elems, k);
    ghost var lz, p1, p2 := PassOneStart(heap[..], dl0, dl[..], bl[..], freq, leaves, elems, k, max);
  }

  method MeasureNext(heap: array<nat>, dl: array<nat>, bl: array<nat>, ghost dl0: seq<nat>, ghost freq: seq<nat>,
                     ghost leaves: set<nat>, elems: nat, maxCode: nat, ghost k: nat, at: nat, max: nat, overflow0: int)
    returns (overflow: int)
    requires heap != dl && heap != bl && dl != bl && 2 * k <= heap.Length && heap.Length - 2 * k <= at < heap.Length
    requires PassAt(heap[..], dl0, dl[..], bl[..], freq, leaves, elems, k, at, max, overflow0)
    requires maxCode < elems && forall n :: n in leaves ==> n <= maxCode
    requires Summed(heap[..], freq, elems, k) && Occurring(freq, leaves, elems)
    requires Exact(heap[..], dl[..], freq, elems, k, at, max, overflow0)
    modifies dl, bl
    ensures PassAt(heap[..], dl0, dl[..], bl[..], freq, leaves, elems, k, at + 1, max, overflow)
    ensures Exact(heap[..], dl[..], freq, elems, k, at + 1, max, overflow)
  {
    hide PassOne, Exact, Summed, Occurring;
    ghost var h: seq<nat> := heap[..];
    ghost var lz: seq<nat>, p1: seq<int>, p2: seq<int>, e: nat :|
      PassOne(h, dl0, dl[..], bl[..], freq, leaves, elems, k, at, max, lz, overflow0, p1, p2, e);
    PassOneMax(h, dl0, dl[..], bl[..], freq, leaves, elems, k, at, max, lz, overflow0, p1, p2, e);
    ExactNext(h, dl0, dl[..], freq, leaves, elems, k, at, max, overflow0);
    ghost var d;
    d, lz, p1, p2, e := PassOneStep(h, dl0, dl[..], bl[..], freq, leaves, elems, k, at, max, lz, overflow0, p1, p2, e);
    overflow := MeasureNode(dl, bl, heap[at], maxCode, max, overflow0);
    assert PassOne(heap[..], dl0, dl[..], bl[..], freq, leaves, elems, k, at + 1, max, lz, overflow, p1, p2, e);
  }

  lemma PassOneMax(h: seq<nat>, dl0: seq<nat>, dl: seq<nat>, bl: seq<nat>, freq: seq<nat>, leaves: set<nat>,
                   elems: nat, k: nat, at: nat, max: nat, lz: seq<nat>, overflow: int, p1: seq<int>, p2: seq<int>,
                     e: nat)
    requires PassOne(h, dl0, dl, bl, freq, leaves, elems, k, at, max, lz, overflow, p1, p2, e)
    ensures 1 <= max < |bl| && TreeList(h, dl0, freq, leaves, elems, k) && |dl| == |dl0|
  {
  }

  ghost predicate Occurring(freq: seq<nat>, leaves: set<nat>, elems: nat) {
    elems <= |freq| && forall n :: n in leaves ==> n < elems && freq[n] != 0
  }

  /** Unless a node was cut, lengths are depths; and a cut needs a frequent root. */
  ghost predicate Exact(h: seq<nat>, dl: seq<nat>, freq: seq<nat>, elems: nat, k: nat, at: nat, max: nat,
                        overflow: int) {
    && 0 <= overflow && 1 <= k && elems + k <= |freq|
    && (overflow == 0 ==> Depths(h, dl, elems, k, at))
    && (overflow != 0 ==> Fib(max + 3) <= freq[elems + k - 1])
  }

  lemma ExactNext(h: seq<nat>, dl0: seq<nat>, dl: seq<nat>, freq: seq<nat>, leaves: set<nat>, elems: nat, k: nat,
                  at: nat, max: nat, overflow: int)
    requires TreeList(h, dl0, freq, leaves, elems, k) && Summed(h, freq, elems, k) && |dl| == |dl0|
    requires Occurring(freq, leaves, elems) && |h| - 2 * k <= at < |h|
    requires Exact(h, dl, freq, elems, k, at, max, overflow)
    ensures var d := elems + (|h| - 1 - at) / 2;
      && h[at] < |dl| && d < |dl|
      && (dl[d] <= max ==>
            Exact(h, dl[h[at] := Deeper(dl[d], max)], freq, elems, k, at + 1, max,
                  overflow + if dl[d] + 1 > max then 1 else 0))
  {
    hide TreeList, Summed, Depths, Fib;
    ListBounds(h, dl0, freq, leaves, elems, k);
    ListNode(h, dl0, freq, leaves, elems, k, at);
    if overflow == 0 {
      DepthsNext(h, dl0, dl, freq, leaves, elems, k, at);
      DeepIsFrequent(h, dl0, dl, freq, leaves, elems, k, at);
    }
  }

  method ClearCounts(bl: array<nat>)
    modifies bl
    ensures forall b :: 0 <= b < bl.Length ==> bl[b] == 0
  {
    for bits := 0 to bl.Length
      invariant forall b :: 0 <= b < bits ==> bl[b] == 0
    {
      bl[bits] := 0;
    }
  }

  /** The length of one node from that of its father, which the node's own field names. */
  method MeasureNode(dl: array<nat>, bl: array<nat>, n: nat, maxCode: nat, max: nat, overflow0: int)
    returns (overflow: int)
    requires dl != bl && n < dl.Length && dl[n] < dl.Length && dl[dl[n]] <= max < bl.Length && 1 <= max
    modifies dl, bl
    ensures var ld := old(dl[dl[n]]);
      && dl[..] == old(dl[..])[n := Deeper(ld, max)]
      && bl[..] == (if n <= maxCode then old(bl[..])[Deeper(ld, max) := old(bl[..])[Deeper(ld, max)] + 1]
        else old(bl[..]))
      && overflow == overflow0 + if ld + 1 > max then 1 else 0
  {
    var bits := dl[dl[n]] + 1;
    overflow := overflow0;
    if bits > max {
      bits, overflow := max, overflow + 1;
    }
    dl[n] := bits;
    if n <= maxCode {
      bl[bits] := bl[bits] + 1;
    }
  }

  lemma ListSizes(h: seq<nat>, dl: seq<nat>, freq: seq<nat>, leaves: set<nat>, elems: nat, k: nat)
    requires TreeList(h, dl, freq, leaves, elems, k)
    ensures 1 <= k < elems && elems + k <= |dl| && 2 * k + 1 < |h| && h[|h| - 2 * k - 1] == elems + k - 1
    ensures forall i :: |h| - 2 * k - 1 <= i < |h| ==> h[i] < |dl|
  {
  }

  // ---------------------------------------------------------------- gen_bitlen, overflow repair

  /** Kraft sum of the counts of lengths 1..m. */
  ghost function CountKraft(bl: seq<nat>, m: nat): nat
    requires m <= MAXBITS && m < |bl|
  {
    if m == 0 then 0 else CountKraft(bl, m - 1) + Shl(bl[m], MAXBITS - m)
  }

  lemma {:induction false} CountKraftIsKraft(bl: seq<nat>, lens: seq<nat>, m: nat)
    requires ValidLengths(lens) && Histogram(bl, lens) && m <= MAXBITS
    ensures CountKraft(bl, m) == Kraft(lens, m)
  {
    if m == 0 {
      KraftNone(lens);
    } else {
      CountKraftIsKraft(bl, lens, m - 1);
      KraftStep(lens, m - 1);
    }
  }

  lemma {:induction false} KraftCut(lens: seq<nat>, m: nat)
    requires m <= MAXBITS && forall n :: 0 <= n < |lens| ==> lens[n] <= m
    ensures ValidLengths(lens) && Kraft(lens, MAXBITS) == Kraft(lens, m)
  {
    if |lens| != 0 {
      KraftCut(lens[..|lens| - 1], m);
    }
  }

  lemma {:induction false} CountKraftUpdate(bl: seq<nat>, m: nat, b: nat, v: nat)
    requires m <= MAXBITS && m < |bl| && 1 <= b < |bl| && b <= MAXBITS
    ensures CountKraft(bl[b := v], m)
         == if b <= m then CountKraft(bl, m) - Shl(bl[b], MAXBITS - b) + Shl(v, MAXBITS - b) else CountKraft(bl, m)
  {
    if m != 0 {
      CountKraftUpdate(bl, m - 1, b, v);
    }
  }

  lemma {:induction false} CountKraftZero(bl: seq<nat>, m: nat)
    requires m <= MAXBITS && m < |bl| && forall b :: 1 <= b <= m ==> bl[b] == 0
    ensures CountKraft(bl, m) == 0
  {
    if m != 0 {
      CountKraftZero(bl, m - 1);
      ShlZero(MAXBITS - m);
    }
  }

  /** Changing one count by `c` symbols of length `b`. */
  lemma CountsMore(bl: seq<nat>, m: nat, b: nat, c: nat)
    requires 1 <= b <= m <= MAXBITS && m < |bl|
    ensures CountKraft(bl[b := bl[b] + c], m) == CountKraft(bl, m) + Shl(c, MAXBITS - b)
    ensures Total(bl[b := bl[b] + c], m) == Total(bl, m) + c
  {
    CountKraftUpdate(bl, m, b, bl[b] + c);
    TotalUpdate(bl, m, b, bl[b] + c);
    ShlAdd(bl[b], c, MAXBITS - b);
  }

  lemma CountsLess(bl: seq<nat>, m: nat, b: nat, c: nat)
    requires 1 <= b <= m <= MAXBITS && m < |bl| && c <= bl[b]
    ensures CountKraft(bl[b := bl[b] - c], m) + Shl(c, MAXBITS - b) == CountKraft(bl, m)
    ensures Total(bl[b := bl[b] - c], m) + c == Total(bl, m)
  {
    CountKraftUpdate(bl, m, b, bl[b] - c);
    TotalUpdate(bl, m, b, bl[b] - c);
    ShlAdd(bl[b] - c, c, MAXBITS - b);
  }

  /** Counts that exceed the Kraft sum 1 by `e` units of length `max`. */
  ghost predicate Excess(bl: seq<nat>, max: nat, e: nat) {
    && 1 <= max <= MAXBITS && |bl| == MAXBITS + 1
    && CountKraft(bl, max) == Pow2(MAXBITS) + Shl(e, MAXBITS - max)
    && e <= bl[max] && Total(bl, max) <= Pow2(max)
  }

  lemma {:induction false} TotalAtLeast(bl: seq<nat>, m: nat)
    requires 1 <= m < |bl|
    ensures bl[m] <= Total(bl, m)
  {
  }

  /** While the sum is too large, some symbol is shorter than the limit. */
  lemma SomeShorter(bl: seq<nat>, max: nat, e: nat) returns (b: nat)
    requires Excess(bl, max, e) && 0 < e
    ensures 1 <= b < max && bl[b] != 0
  {
    ShlShl(1, max, MAXBITS - max);
    ShlAdd(Pow2(max), e, MAXBITS - max);
    ShlMono(bl[max], Pow2(max) + e, MAXBITS - max);
    TotalAtLeast(bl, max);
    hide Shl, Total;
    if b0: nat :| 1 <= b0 < max && bl[b0] != 0 {
      b := b0;
    } else {
      CountKraftZero(bl, max - 1);
      assert false;
    }
  }

  /** One repair step: a leaf of length `bits` moves down, with a cut leaf as its brother. */
  ghost function RepairStep(bl: seq<nat>, max: nat, bits: nat): seq<nat>
    requires 1 <= bits < max < |bl| && 1 <= bl[bits] && 1 <= bl[max]
  {
    var a := bl[bits := bl[bits] - 1];
    var b := a[bits + 1 := a[bits + 1] + 2];
    b[max := b[max] - 1]
  }

  lemma RepairReduces(bl: seq<nat>, max: nat, bits: nat, e: nat)
    requires Excess(bl, max, e) && 0 < e && 1 <= bits < max && bl[bits] != 0
    ensures Excess(RepairStep(bl, max, bits), max, e - 1)
    ensures Total(RepairStep(bl, max, bits), max) == Total(bl, max)
  {
    hide CountKraft, Total, Shl;
    var a := bl[bits := bl[bits] - 1];
    var b := a[bits + 1 := a[bits + 1] + 2];
    CountsLess(bl, max, bits, 1);
    CountsMore(a, max, bits + 1, 2);
    CountsLess(b, max, max, 1);
    ShlAdd(1, 1, MAXBITS - bits - 1);
    DoubleShift(MAXBITS - bits - 1);
    ShlAdd(e - 1, 1, MAXBITS - max);
  }

  lemma DoubleShift(k: nat)
    ensures Shl(1, k + 1) == Shl(1, k) + Shl(1, k)
  {
  }

  /** The do-while loop that repairs the counts. */
  method RepairCounts(bl: array<nat>, max: nat, overflow0: int)
    requires bl.Length == MAXBITS + 1 && 0 < overflow0 && overflow0 % 2 == 0
    requires Excess(bl[..], max, overflow0 / 2)
    modifies bl
    ensures Excess(bl[..], max, 0) && Total(bl[..], max) == old(Total(bl[..], max))
    ensures forall b :: 0 <= b <= MAXBITS && (b == 0 || max < b) ==> bl[b] == old(bl[b])
  {
    hide CountKraft, Total, Shl;
    var overflow := overflow0;
    while overflow > 0
      invariant 0 <= overflow && overflow % 2 == 0
      invariant Excess(bl[..], max, overflow / 2) && Total(bl[..], max) == old(Total(bl[..], max))
      invariant forall b :: 0 <= b <= MAXBITS && (b == 0 || max < b) ==> bl[b] == old(bl[b])
    {
      ghost var s := SomeShorter(bl[..], max, overflow / 2);
      var bits := max - 1;
      while bl[bits] == 0
        invariant s <= bits < max
        decreases bits
      {
        bits := bits - 1;
      }
      ghost var was: seq<nat> := bl[..];
      RepairReduces(was, max, bits, overflow / 2);
      bl[bits] := bl[bits] - 1;
      bl[bits + 1] := bl[bits + 1] + 2;
      bl[max] := bl[max] - 1;
      assert bl[..] == RepairStep(was, max, bits);
      overflow := overflow - 2;
    }
  }

  // ---------------------------------------------------------------- gen_bitlen, second pass

  /** Leaves from position `at` on have got their new lengths, which are in `lr`. */
  ghost predicate Reassigned(h: seq<nat>, dl: seq<nat>, leaves: set<nat>, elems: nat, k: nat, at: nat, max: nat,
                             lr: seq<nat>) {
    && 2 * k + 1 <= |h| && |h| - 2 * k - 1 <= at <= |h| && |lr| == elems <= |dl|
    && (forall q :: at <= q < |h| && h[q] < elems ==> lr[h[q]] == dl[h[q]] && 1 <= lr[h[q]] <= max)
    && (forall q :: |h| - 2 * k - 1 <= q < at && h[q] < elems ==> lr[h[q]] == 0)
    && (forall n :: 0 <= n < elems && n !in leaves ==> lr[n] == 0 && dl[n] == 0)
  }

  /** The counts `given` out so far, with `n` of length `bits` still to come. */
  ghost predicate Given(given: seq<nat>, bl: seq<nat>, max: nat, bits: nat, n: nat) {
    && |given| == |bl| == MAXBITS + 1 && bits <= max <= MAXBITS
    && (forall b :: bits < b <= max ==> given[b] == bl[b])
    && (0 < bits ==> given[bits] + n == bl[bits])
    && (forall b :: 1 <= b < bits ==> given[b] == 0)
  }

  ghost predicate PassTwo(h: seq<nat>, dl: seq<nat>, bl: seq<nat>, leaves: set<nat>, elems: nat, k: nat,
                          at: nat, max: nat, bits: nat, n: nat, lr: seq<nat>, given: seq<nat>)
  {
    && Reassigned(h, dl, leaves, elems, k, at, max, lr)
    && Histogram(given, lr) && Given(given, bl, max, bits, n)
    && Total(given, max) + LeafCount(h, |h| - 2 * k - 1, at, elems) == Total(bl, max)
  }

  lemma {:induction false} TotalLess(a: seq<nat>, b: seq<nat>, m: nat, i: nat)
    requires m < |a| == |b| && 1 <= i <= m && a[i] < b[i] && forall j :: 1 <= j <= m ==> a[j] <= b[j]
    ensures Total(a, m) < Total(b, m)
  {
    if i < m {
      TotalLess(a, b, m - 1, i);
    } else {
      TotalAtMost(a, b, m - 1);
    }
  }

  lemma {:induction false} TotalAtMost(a: seq<nat>, b: seq<nat>, m: nat)
    requires m < |a| == |b| && forall j :: 1 <= j <= m ==> a[j] <= b[j]
    ensures Total(a, m) <= Total(b, m)
  {
    if m != 0 {
      TotalAtMost(a, b, m - 1);
    }
  }

  /** While lengths are left to give, a leaf is left to get one. */
  lemma LeafLeft(h: seq<nat>, dl: seq<nat>, bl: seq<nat>, leaves: set<nat>, elems: nat, k: nat,
                 at: nat, max: nat, bits: nat, n: nat, lr: seq<nat>, given: seq<nat>)
    requires PassTwo(h, dl, bl, leaves, elems, k, at, max, bits, n, lr, given) && 1 <= bits && 0 < n
    ensures 2 * k + 1 <= |h| && |h| - 2 * k - 1 < at <= |h|
  {
    TotalLess(given, bl, max, bits);
  }

  /** Passing an inner node. */
  lemma PassInner(h: seq<nat>, dl: seq<nat>, bl: seq<nat>, leaves: set<nat>, elems: nat, k: nat,
                  at: nat, max: nat, bits: nat, n: nat, lr: seq<nat>, given: seq<nat>)
    requires PassTwo(h, dl, bl, leaves, elems, k, at, max, bits, n, lr, given)
    requires |h| - 2 * k - 1 < at && h[at - 1] >= elems
    ensures PassTwo(h, dl, bl, leaves, elems, k, at - 1, max, bits, n, lr, given)
  {
  }

  /** Giving length `bits` to a leaf. */
  lemma PassLeaf(h: seq<nat>, dl0: seq<nat>, dl: seq<nat>, freq: seq<nat>, bl: seq<nat>, leaves: set<nat>, elems: nat,
                 k: nat,
                 at: nat, max: nat, bits: nat, n: nat, lr: seq<nat>, given: seq<nat>)
    requires TreeList(h, dl0, freq, leaves, elems, k) && |dl| == |dl0|
    requires PassTwo(h, dl, bl, leaves, elems, k, at, max, bits, n, lr, given) && 1 <= bits && 0 < n
    requires |h| - 2 * k - 1 < at && h[at - 1] < elems
    ensures h[at - 1] in leaves
    ensures PassTwo(h, dl[h[at - 1] := bits], bl, leaves, elems, k, at - 1, max, bits, n - 1,
                    lr[h[at - 1] := bits], given[bits := given[bits] + 1])
  {
    var m := h[at - 1];
    ListNode(h, dl0, freq, leaves, elems, k, at - 1);
    forall r | |h| - 2 * k - 1 <= r < |h| && r != at - 1
      ensures h[r] != m
    {
      ListOnce(h, dl0, freq, leaves, elems, k, r, at - 1);
    }
    hide TreeList, Filter, Total;
    HistogramStep(given, lr, m, bits);
    TotalUpdate(given, max, bits, given[bits] + 1);
  }

  lemma {:induction false} NoLeaves(h: seq<nat>, lo: nat, hi: nat, elems: nat)
    requires lo <= hi <= |h| && LeafCount(h, lo, hi, elems) == 0
    ensures forall q :: lo <= q < hi ==> elems <= h[q]
  {
    if lo < hi {
      NoLeaves(h, lo, hi - 1, elems);
    }
  }

  lemma {:induction false} TotalSame(a: seq<nat>, b: seq<nat>, m: nat)
    requires m < |a| == |b| && forall j :: 1 <= j <= m ==> a[j] == b[j]
    ensures Total(a, m) == Total(b, m)
  {
    if m != 0 {
      TotalSame(a, b, m - 1);
    }
  }

  lemma {:induction false} CountKraftSame(a: seq<nat>, b: seq<nat>, m: nat)
    requires m <= MAXBITS && m < |a| == |b| && forall j :: 1 <= j <= m ==> a[j] == b[j]
    ensures CountKraft(a, m) == CountKraft(b, m)
  {
    if m != 0 {
      CountKraftSame(a, b, m - 1);
    }
  }

  /** What `gen_bitlen` promises: exactly the leaves have a length, none above `max`, the
      counts agree, and the Kraft sum is exactly one. */
  ghost predicate GoodLengths(lens: seq<nat>, bl: seq<nat>, leaves: set<nat>, max: nat) {
    && ValidLengths(lens)
    && (forall n :: 0 <= n < |lens| ==> lens[n] <= max && (lens[n] == 0 <==> n !in leaves))
    && Histogram(bl, lens)
    && Kraft(lens, MAXBITS) == Pow2(MAXBITS)
  }

  lemma PassTwoEnd(h: seq<nat>, dl0: seq<nat>, dl: seq<nat>, freq: seq<nat>, bl: seq<nat>, leaves: set<nat>,
                   elems: nat, k: nat,
                   at: nat, max: nat, n: nat, lr: seq<nat>, given: seq<nat>)
    requires TreeList(h, dl0, freq, leaves, elems, k)
    requires PassTwo(h, dl, bl, leaves, elems, k, at, max, 0, n, lr, given) && Excess(bl, max, 0)
    requires bl[0] == 0 && forall b :: max < b <= MAXBITS ==> bl[b] == 0
    ensures elems <= |dl| && GoodLengths(dl[..elems], bl, leaves, max)
    ensures forall q :: |h| - 2 * k - 1 <= q < at ==> elems <= h[q]
  {
    hide Filter, Kraft, CountKraft, Total, Shl;
    TotalSame(given, bl, max);
    NoLeaves(h, |h| - 2 * k - 1, at, elems);
    forall i | 0 <= i < elems
      ensures lr[i] == dl[i] <= max && (lr[i] == 0 <==> i !in leaves)
    {
      if i in leaves {
        var q := ListPosition(h, dl0, freq, leaves, elems, k, i);
      }
    }
    hide TreeList;
    assert lr == dl[..elems];
    KraftCut(lr, max);
    CountKraftIsKraft(given, lr, max);
    CountKraftSame(given, bl, max);
    ShlZero(MAXBITS - max);
    LongCounts(given, bl, lr, max);
  }

  lemma LongCounts(given: seq<nat>, bl: seq<nat>, lr: seq<nat>, max: nat)
    requires Histogram(given, lr) && |bl| == |given| && forall i :: 0 <= i < |lr| ==> lr[i] <= max
    requires forall b :: 1 <= b <= max ==> b <= MAXBITS && given[b] == bl[b]
    requires bl[0] == 0 && forall b :: max < b <= MAXBITS ==> bl[b] == 0
    ensures Histogram(bl, lr)
  {
    forall b | 1 <= b <= MAXBITS
      ensures bl[b] == |Filter(lr, b)|
    {
      if max < b {
        FilterNone(lr, b);
      }
    }
  }

  lemma {:induction false} FilterNone(lens: seq<nat>, b: nat)
    requires forall i :: 0 <= i < |lens| ==> lens[i] != b
    ensures Filter(lens, b) == []
  {
    if |lens| != 0 {
      FilterNone(lens[..|lens| - 1], b);
    }
  }

  /** The second pass before position `at`, with `n` lengths `bits` still to give. */
  ghost predicate GivingAt(h: seq<nat>, dl: seq<nat>, bl: seq<nat>, leaves: set<nat>, elems: nat, k: nat,
                           at: nat, max: nat, bits: nat, n: nat)
  {
    exists lr: seq<nat>, given: seq<nat> :: PassTwo(h, dl, bl, leaves, elems, k, at, max, bits, n, lr, given)
  }

  lemma GivingStart(h: seq<nat>, dl: seq<nat>, bl: seq<nat>, leaves: set<nat>, elems: nat, k: nat, max: nat)
    requires 2 * k + 1 <= |h| && |bl| == MAXBITS + 1 && 1 <= max <= MAXBITS && UnusedZero(dl, leaves, elems)
    requires Total(bl, max) == LeafCount(h, |h| - 2 * k - 1, |h|, elems)
    requires forall q :: |h| - 2 * k - 1 <= q < |h| ==> h[q] < |dl|
    ensures GivingAt(h, dl, bl, leaves, elems, k, |h|, max, max, bl[max])
  {
    var lr: seq<nat>, given: seq<nat> := seq(elems, _ => 0), seq(MAXBITS + 1, _ => 0);
    ZeroLengths(lr);
    TotalZero(given, max);
    assert PassTwo(h, dl, bl, leaves, elems, k, |h|, max, max, bl[max], lr, given);
  }

  lemma GivingShorter(h: seq<nat>, dl: seq<nat>, bl: seq<nat>, leaves: set<nat>, elems: nat, k: nat,
                      at: nat, max: nat, bits: nat)
    requires GivingAt(h, dl, bl, leaves, elems, k, at, max, bits, 0) && 1 <= bits && |bl| == MAXBITS + 1
    requires bits <= MAXBITS
    ensures GivingAt(h, dl, bl, leaves, elems, k, at, max, bits - 1, bl[bits - 1])
  {
    hide Reassigned, Histogram, Total, LeafCount;
    var lr: seq<nat>, given: seq<nat> :| PassTwo(h, dl, bl, leaves, elems, k, at, max, bits, 0, lr, given);
    assert PassTwo(h, dl, bl, leaves, elems, k, at, max, bits - 1, bl[bits - 1], lr, given);
  }

  lemma GivingBounds(h: seq<nat>, dl: seq<nat>, bl: seq<nat>, leaves: set<nat>, elems: nat, k: nat,
                     at: nat, max: nat, bits: nat, n: nat)
    requires GivingAt(h, dl, bl, leaves, elems, k, at, max, bits, n) && 1 <= bits && 0 < n
    ensures 2 * k + 1 <= |h| && |h| - 2 * k - 1 < at <= |h|
  {
    hide PassTwo;
    var lr: seq<nat>, given: seq<nat> :| PassTwo(h, dl, bl, leaves, elems, k, at, max, bits, n, lr, given);
    LeafLeft(h, dl, bl, leaves, elems, k, at, max, bits, n, lr, given);
  }

  lemma GivingStep(h: seq<nat>, dl0: seq<nat>, dl: seq<nat>, freq: seq<nat>, bl: seq<nat>, leaves: set<nat>,
                   elems: nat, k: nat,
                   at: nat, max: nat, bits: nat, n: nat)
    requires TreeList(h, dl0, freq, leaves, elems, k) && |dl| == |dl0|
    requires GivingAt(h, dl, bl, leaves, elems, k, at, max, bits, n) && 1 <= bits && 0 < n
    requires 1 <= at <= |h| && |h| - 2 * k - 1 < at
    ensures h[at - 1] < |dl|
    ensures h[at - 1] < elems ==>
              h[at - 1] in leaves && GivingAt(h, dl[h[at - 1] := bits], bl, leaves, elems, k, at - 1, max, bits, n - 1)
    ensures h[at - 1] >= elems ==> GivingAt(h, dl, bl, leaves, elems, k, at - 1, max, bits, n)
  {
    ListNode(h, dl0, freq, leaves, elems, k, at - 1);
    ListSizes(h, dl0, freq, leaves, elems, k);
    hide PassTwo, TreeList;
    var lr: seq<nat>, given: seq<nat> :| PassTwo(h, dl, bl, leaves, elems, k, at, max, bits, n, lr, given);
    if h[at - 1] >= elems {
      PassInner(h, dl, bl, leaves, elems, k, at, max, bits, n, lr, given);
    } else {
      PassTwoSizes(h, dl, bl, leaves, elems, k, at, max, bits, n, lr, given);
      PassLeaf(h, dl0, dl, freq, bl, leaves, elems, k, at, max, bits, n, lr, given);
    }
  }

  lemma PassTwoSizes(h: seq<nat>, dl: seq<nat>, bl: seq<nat>, leaves: set<nat>, elems: nat, k: nat,
                     at: nat, max: nat, bits: nat, n: nat, lr: seq<nat>, given: seq<nat>)
    requires PassTwo(h, dl, bl, leaves, elems, k, at, max, bits, n, lr, given)
    ensures |lr| == elems && bits <= max <= MAXBITS && |given| == MAXBITS + 1
  {
  }

  lemma GivingEnd(h: seq<nat>, dl0: seq<nat>, dl: seq<nat>, freq: seq<nat>, bl: seq<nat>, leaves: set<nat>,
                  elems: nat, k: nat,
                  at: nat, max: nat, n: nat)
    requires TreeList(h, dl0, freq, leaves, elems, k)
    requires GivingAt(h, dl, bl, leaves, elems, k, at, max, 0, n) && Excess(bl, max, 0)
    requires bl[0] == 0 && forall b :: max < b <= MAXBITS ==> bl[b] == 0
    ensures elems <= |dl| && GoodLengths(dl[..elems], bl, leaves, max)
    ensures forall q :: |h| - 2 * k - 1 <= q < at ==> elems <= h[q]
  {
    hide PassTwo, TreeList, GoodLengths;
    var lr: seq<nat>, given: seq<nat> :| PassTwo(h, dl, bl, leaves, elems, k, at, max, 0, n, lr, given);
    PassTwoEnd(h, dl0, dl, freq, bl, leaves, elems, k, at, max, n, lr, given);
  }

  /** Leaves from position `at` on have lengths from `bits` up, longer ones later. */
  ghost predicate Rising(h: seq<nat>, dl: seq<nat>, elems: nat, at: nat, bits: nat) {
    && (forall q :: at <= q < |h| && h[q] < elems ==> h[q] < |dl| && bits <= dl[h[q]])
    && (forall p, q :: at <= p <= q < |h| && h[p] < elems && h[q] < elems ==> dl[h[p]] <= dl[h[q]])
  }

  lemma RisingNext(h: seq<nat>, dl0: seq<nat>, dl: seq<nat>, freq: seq<nat>, leaves: set<nat>, elems: nat, k: nat,
                   at: nat, bits: nat)
    requires TreeList(h, dl0, freq, leaves, elems, k) && |dl| == |dl0| && |h| - 2 * k - 1 < at <= |h| && 1 <= at
    requires Rising(h, dl, elems, at, bits)
    ensures h[at - 1] < |dl|
    ensures h[at - 1] < elems ==> Rising(h, dl[h[at - 1] := bits], elems, at - 1, bits)
    ensures h[at - 1] >= elems ==> Rising(h, dl, elems, at - 1, bits)
  {
    ListNode(h, dl0, freq, leaves, elems, k, at - 1);
    forall q | at <= q < |h|
      ensures h[q] != h[at - 1]
    {
      ListOnce(h, dl0, freq, leaves, elems, k, q, at - 1);
    }
    hide TreeList;
  }

  lemma RisingShorter(h: seq<nat>, dl: seq<nat>, elems: nat, at: nat, bits: nat)
    requires Rising(h, dl, elems, at, bits) && 1 <= bits
    ensures Rising(h, dl, elems, at, bits - 1)
  {
  }

  lemma RisingStart(h: seq<nat>, dl: seq<nat>, elems: nat, bits: nat)
    ensures Rising(h, dl, elems, |h|, bits)
  {
  }

  /** The list is by frequency, so the lengths are too. */
  lemma RisingMonotone(h: seq<nat>, dl0: seq<nat>, dl: seq<nat>, freq: seq<nat>, leaves: set<nat>, elems: nat, k: nat,
                       at: nat, bits: nat)
    requires TreeList(h, dl0, freq, leaves, elems, k) && |dl| == |dl0| && elems <= |dl| && elems <= |freq|
    requires Rising(h, dl, elems, at, bits) && at <= |h| && 2 * k + 1 <= |h|
    requires forall q :: |h| - 2 * k - 1 <= q < at ==> elems <= h[q]
    ensures Monotone(leaves, freq, dl[..elems])
  {
    hide TreeList;
    ListBounds(h, dl0, freq, leaves, elems, k);
    forall a, b | a in leaves && b in leaves && freq[a] < freq[b]
      ensures dl[b] <= dl[a]
    {
      var p := ListPosition(h, dl0, freq, leaves, elems, k, a);
      var q := ListPosition(h, dl0, freq, leaves, elems, k, b);
      assert q < p;
    }
  }

  /** The second pass of `gen_bitlen`: give the repaired lengths to the leaves, the longest to
      the least frequent. */
  method SecondPass(heap: array<nat>, dl: array<nat>, bl: seq<nat>, ghost dl0: seq<nat>, ghost freq: seq<nat>,
                    ghost leaves: set<nat>, elems: nat, maxCode: nat, ghost k: nat, max: nat)
    requires heap != dl && |dl0| == dl.Length
    requires TreeList(heap[..], dl0, freq, leaves, elems, k) && UnusedZero(dl[..], leaves, elems)
    requires maxCode < elems && forall n :: n in leaves ==> n <= maxCode
    requires Excess(bl, max, 0) && 2 * k + 1 <= heap.Length
    requires Total(bl, max) == LeafCount(heap[..], heap.Length - 2 * k - 1, heap.Length, elems)
    requires bl[0] == 0 && forall b :: max < b <= MAXBITS ==> bl[b] == 0
    modifies dl
    ensures elems <= dl.Length && GoodLengths(dl[..elems], bl, leaves, max)
    ensures elems <= |freq| && Monotone(leaves, freq, dl[..elems])
  {
    ghost var hs: seq<nat> := heap[..];
    ListSizes(hs, dl0, freq, leaves, elems, k);
    ListBounds(hs, dl0, freq, leaves, elems, k);
    GivingStart(hs, dl[..], bl, leaves, elems, k, max);
    RisingStart(hs, dl[..], elems, max);
    hide TreeList, Rising, Monotone, GivingAt, GoodLengths, Total, LeafCount, CountKraft, UnusedZero;
    var h: nat, bits: nat := heap.Length, max;
    while bits != 0
      invariant 0 <= bits <= max && heap[..] == hs && h <= heap.Length
      invariant GivingAt(hs, dl[..], bl, leaves, elems, k, h, max, bits, bl[bits]) && Rising(hs, dl[..], elems, h, bits)
    {
      h := GiveLength(heap, dl, bl, dl0, freq, leaves, elems, maxCode, k, max, h, bits);
      GivingShorter(hs, dl[..], bl, leaves, elems, k, h, max, bits);
      RisingShorter(hs, dl[..], elems, h, bits);
      bits := bits - 1;
    }
    GivingEnd(hs, dl0, dl[..], freq, bl, leaves, elems, k, h, max, bl[0]);
    RisingMonotone(hs, dl0, dl[..], freq, leaves, elems, k, h, 0);
    assert dl[..][..elems] == dl[..elems];
  }

  /** The inner loop: all codes of `bits` bits. */
  method GiveLength(heap: array<nat>, dl: array<nat>, bl: seq<nat>, ghost dl0: seq<nat>, ghost freq: seq<nat>,
                    ghost leaves: set<nat>, elems: nat, maxCode: nat, ghost k: nat, ghost max: nat, h0: nat, bits: nat)
    returns (h: nat)
    requires heap != dl && |dl0| == dl.Length && TreeList(heap[..], dl0, freq, leaves, elems, k)
    requires maxCode < elems && forall n :: n in leaves ==> n <= maxCode
    requires h0 <= heap.Length && 1 <= bits < |bl| && 2 * k + 1 <= heap.Length
    requires GivingAt(heap[..], dl[..], bl, leaves, elems, k, h0, max, bits, bl[bits])
    requires Rising(heap[..], dl[..], elems, h0, bits)
    modifies dl
    ensures h <= heap.Length && GivingAt(heap[..], dl[..], bl, leaves, elems, k, h, max, bits, 0)
    ensures Rising(heap[..], dl[..], elems, h, bits)
  {
    hide *;
    ghost var hs: seq<nat> := heap[..];
    h := h0;
    var n := bl[bits];
    while n != 0
      invariant heap[..] == hs && h <= heap.Length
      invariant GivingAt(hs, dl[..], bl, leaves, elems, k, h, max, bits, n) && Rising(hs, dl[..], elems, h, bits)
      decreases h
    {
      ghost var was: seq<nat> := dl[..];
      GivingBounds(hs, was, bl, leaves, elems, k, h, max, bits, n);
      GivingStep(hs, dl0, was, freq, bl, leaves, elems, k, h, max, bits, n);
      RisingNext(hs, dl0, was, freq, leaves, elems, k, h, bits);
      h := h - 1;
      var m := heap[h];
      if m > maxCode {
        continue;
      }
      if dl[m] != bits {
        dl[m] := bits;
      }
      assert dl[..] == was[m := bits];
      n := n - 1;
    }
  }

  // ---------------------------------------------------------------- gen_bitlen and build_tree

  lemma {:induction false} TotalIsOrder(bl: seq<nat>, lens: seq<nat>, m: nat)
    requires Histogram(bl, lens) && m <= MAXBITS
    ensures Total(bl, m) == |Order(lens, m)|
  {
    if m != 0 {
      TotalIsOrder(bl, lens, m - 1);
    }
  }

  /** The counts of cut lengths, seen as an excess to be repaired. */
  lemma CutIsExcess(h: seq<nat>, lens: seq<nat>, bl: seq<nat>, leaves: set<nat>, k: nat, max: nat, overflow: int)
    requires CutLengths(h, lens, bl, leaves, k, max, overflow) && |lens| <= Pow2(max)
    ensures Excess(bl, max, overflow / 2)
    ensures bl[0] == 0 && forall b :: max < b <= MAXBITS ==> bl[b] == 0
    ensures overflow == 0 ==> GoodLengths(lens, bl, leaves, max)
  {
    hide Order, Kraft, CountKraft, Total, LeafCount, Shl;
    TotalIsOrder(bl, lens, max);
    OrderLength(lens, max);
    CountKraftIsKraft(bl, lens, max);
    KraftCut(lens, max);
    ShlZero(MAXBITS - max);
    forall b | max < b <= MAXBITS
      ensures bl[b] == 0
    {
      FilterNone(lens, b);
    }
  }

  /** `gen_bitlen`: code lengths of at most `max` bits whose Kraft sum is exactly one. */
  method GenBitlen(heap: array<nat>, dl: array<nat>, bl: array<nat>, ghost freq: seq<nat>, ghost leaves: set<nat>,
                   elems: nat, maxCode: nat, k: nat, max: nat)
    returns (ghost cut: bool)
    requires heap != dl && heap != bl && dl != bl && bl.Length == MAXBITS + 1 && 1 <= max <= MAXBITS
    requires TreeList(heap[..], dl[..], freq, leaves, elems, k) && elems <= Pow2(max)
    requires maxCode < elems && forall n :: n in leaves ==> n <= maxCode
    requires UnusedZero(dl[..], leaves, elems) && Summed(heap[..], freq, elems, k) && Occurring(freq, leaves, elems)
    modifies dl, bl
    ensures elems <= dl.Length && GoodLengths(dl[..elems], bl[..], leaves, max)
    ensures elems <= |freq| && (!cut ==> Optimal(leaves, freq, dl[..elems]))
    ensures Over(leaves, freq, elems) < Fib(max + 3) ==> !cut
    ensures Feasible(leaves, dl[..elems], MAXBITS) && Monotone(leaves, freq, dl[..elems])
  {
    ghost var h: seq<nat>, dl0: seq<nat> := heap[..], dl[..];
    hide TreeList, CutLengths, GoodLengths, UnusedZero, Shl, Excess, Summed, Occurring, Optimal, Exact, Fib, Over,
         Feasible, Monotone;
    ListBounds(h, dl0, freq, leaves, elems, k);
    var overflow := FirstPass(heap, dl, bl, freq, leaves, elems, maxCode, k, max);
    CutIsExcess(h, dl[..elems], bl[..], leaves, k, max, overflow);
    CutFacts(h, dl[..elems], bl[..], leaves, k, max, overflow);
    cut := overflow != 0;
    ExactAll(h, dl0, dl[..], freq, leaves, elems, k, max, overflow);
    assert dl[..][..elems] == dl[..elems];
    if overflow == 0 {
      GoodFeasible(dl[..elems], bl[..], leaves, max);
      OptimalMonotone(leaves, freq, dl[..elems], MAXBITS);
      return;
    }
    UnusedCut(h, dl[..], bl[..], leaves, elems, k, max, overflow);
    RepairCounts(bl, max, overflow);
    SecondPass(heap, dl, bl[..], dl0, freq, leaves, elems, maxCode, k, max);
    GoodFeasible(dl[..elems], bl[..], leaves, max);
  }

  lemma ExactAll(h: seq<nat>, dl0: seq<nat>, dl: seq<nat>, freq: seq<nat>, leaves: set<nat>, elems: nat, k: nat,
                 max: nat, overflow: int)
    requires TreeList(h, dl0, freq, leaves, elems, k) && Summed(h, freq, elems, k) && |dl| == |dl0|
    requires Exact(h, dl, freq, elems, k, |h|, max, overflow)
    ensures elems <= |freq| && elems <= |dl| && (overflow == 0 ==> Optimal(leaves, freq, dl[..elems]))
    ensures Over(leaves, freq, elems) < Fib(max + 3) ==> overflow == 0
  {
    hide TreeList, Summed, Optimal, Fib, Over, Depths;
    ListBounds(h, dl0, freq, leaves, elems, k);
    RootIsTotal(h, dl0, freq, leaves, elems, k);
    if overflow == 0 {
      DepthsOptimal(h, dl0, dl, freq, leaves, elems, k);
    }
  }

  lemma CutFacts(h: seq<nat>, lens: seq<nat>, bl: seq<nat>, leaves: set<nat>, k: nat, max: nat, overflow: int)
    requires CutLengths(h, lens, bl, leaves, k, max, overflow)
    ensures 0 <= overflow && overflow % 2 == 0 && 2 * k + 1 <= |h| && max < |bl|
    ensures Total(bl, max) == LeafCount(h, |h| - 2 * k - 1, |h|, |lens|)
  {
  }

  lemma UnusedCut(h: seq<nat>, dl: seq<nat>, bl: seq<nat>, leaves: set<nat>, elems: nat, k: nat, max: nat,
                  overflow: int)
    requires elems <= |dl| && CutLengths(h, dl[..elems], bl, leaves, k, max, overflow)
    ensures UnusedZero(dl, leaves, elems)
  {
    forall n | 0 <= n < elems && n !in leaves
      ensures dl[n] == 0
    {
      assert dl[n] == dl[..elems][n];
    }
  }

  /** `bi_reverse`. */
  method BiReverse(code: nat, len: nat) returns (r: nat)
    requires 1 <= len
    ensures r == Rev(code, len)
  {
    var res, c, left := 0, code, len;
    ghost var done := 0;
    while left > 0
      invariant 0 <= left && done + left == len
      invariant c == Shr(code, done) && res == 2 * Rev(code, done)
    {
      // res is even, so or-ing in the lowest bit of c adds it
      res := res + c % 2;
      RevNext(code, done);
      ShrNext(code, done);
      c, res := c / 2, res * 2;
      left := left - 1;
      done := done + 1;
    }
    r := res / 2;
  }

  lemma RevNext(x: nat, i: nat)
    ensures Rev(x, i + 1) == 2 * Rev(x, i) + Shr(x, i) % 2
  {
    RevLow(x, i + 1);
    RevLow(x, i);
    LowSplit(x, i, 1);
    Split(x, i);
    var b := Shr(x, i) % 2;
    assert Low(Shr(x, i), 1) == b + 2 * Low(Shr(x, i) / 2, 0);
    RevSplit(Low(x, i), i, b, 1);
    RevOne(b);
    assert Shl(Rev(x, i), 1) == 2 * Shl(Rev(x, i), 0);
  }

  lemma ShrNext(x: nat, i: nat)
    ensures Shr(x, i) / 2 == Shr(x, i + 1)
  {
    ShrShr(x, i, 1);
    assert Shr(Shr(x, i), 1) == Shr(Shr(x, i) / 2, 0);
  }

  /** Code values fit into their length, so the 16-bit arithmetic of `gen_codes` is exact. */
  lemma FirstCodeBound(lens: seq<nat>, l: nat)
    requires ValidLengths(lens) && Kraft(lens, MAXBITS) <= Pow2(MAXBITS) && 1 <= l <= MAXBITS
    ensures FirstCode(lens, l) + |Filter(lens, l)| <= Pow2(l)
    ensures Pow2(l) <= 32768 && (l < MAXBITS ==> Pow2(l) <= 16384)
  {
    hide FirstCode, Filter, Kraft, Shl;
    FirstCodeIsStart(lens, l);
    KraftStep(lens, l - 1);
    KraftUpTo(lens, l, MAXBITS);
    var a := FirstCode(lens, l) + |Filter(lens, l)|;
    ShlAdd(FirstCode(lens, l), |Filter(lens, l)|, MAXBITS - l);
    ShlShl(1, l, MAXBITS - l);
    ShlMono(Pow2(l), a, MAXBITS - l);
    ShlMono(0, 1, MAXBITS - l);
    Pow2Mono(l, MAXBITS);
    Pow2Fifteen();
  }

  lemma Pow2Fifteen()
    ensures Pow2(MAXBITS) == 32768
  {
    assert Shl(1, 15) == 32768;
  }

  lemma {:induction false} KraftUpTo(lens: seq<nat>, l: nat, m: nat)
    requires ValidLengths(lens) && l <= m <= MAXBITS
    ensures Kraft(lens, l) <= Kraft(lens, m)
  {
    if l < m {
      KraftUpTo(lens, l, m - 1);
      KraftStep(lens, m - 1);
    }
  }

  /** The first loop of `gen_codes`: the smallest code of every length. */
  method NextCodes(lens: seq<nat>, bl: seq<nat>) returns (next: array<nat>)
    requires ValidLengths(lens) && Histogram(bl, lens) && Kraft(lens, MAXBITS) <= Pow2(MAXBITS)
    ensures fresh(next) && next.Length == MAXBITS + 1
    ensures forall b :: 1 <= b <= MAXBITS ==> next[b] == FirstCode(lens, b)
  {
    hide FirstCode, Filter, Kraft;
    next := new nat[MAXBITS + 1];
    var c := 0;
    for bits := 1 to MAXBITS + 1
      invariant bits == 1 ==> c == 0
      invariant 1 < bits ==> c == FirstCode(lens, bits - 1)
      invariant forall b :: 1 <= b < bits ==> next[b] == FirstCode(lens, b)
    {
      FirstCodeNext(lens, bits);
      if bits > 1 {
        FirstCodeBound(lens, bits - 1);
      }
      c := (c + bl[bits - 1]) * 2 % 65536;
      next[bits] := c;
    }
  }

  /** `gen_codes`: the canonical code words, first bit lowest, in 16-bit arithmetic. */
  method GenCodes(code: array<nat>, lens: seq<nat>, maxCode: nat, bl: seq<nat>)
    requires ValidLengths(lens) && maxCode < |lens| <= code.Length && Histogram(bl, lens)
    requires Kraft(lens, MAXBITS) <= Pow2(MAXBITS)
    modifies code
    ensures forall n :: 0 <= n <= maxCode && lens[n] != 0 ==> code[n] == Rev(CodeValue(lens, n), lens[n])
    ensures forall n :: 0 <= n < code.Length && (maxCode < n || lens[n] == 0) ==> code[n] == old(code[n])
  {
    hide FirstCode, Filter, Kraft, Histogram, Rev, Pow2;
    var next := NextCodes(lens, bl);
    FilterNext(lens, 0);
    for n := 0 to maxCode + 1
      invariant next != code && fresh(next)
      invariant NextFree(next[..], lens, n)
      invariant forall i :: 0 <= i < n && lens[i] != 0 ==> code[i] == Rev(CodeValue(lens, i), lens[i])
      invariant forall i :: 0 <= i < code.Length && (n <= i || lens[i] == 0) ==> code[i] == old(code[i])
    {
      ghost var was: seq<nat> := next[..];
      NextAfter(was, lens, n);
      var len := lens[n];
      if len != 0 {
        code[n] := BiReverse(next[len], len);
        next[len] := (next[len] + 1) % 65536;
        assert next[..] == was[len := was[len] + 1];
      }
    }
  }

  /** The next free code of every length after `n` symbols. */
  ghost predicate NextFree(next: seq<nat>, lens: seq<nat>, n: nat)
    requires n <= |lens|
  {
    && |next| == MAXBITS + 1
    && forall b :: 1 <= b <= MAXBITS ==> next[b] == FirstCode(lens, b) + |Filter(lens[..n], b)|
  }

  lemma NextAfter(next: seq<nat>, lens: seq<nat>, n: nat)
    requires ValidLengths(lens) && Kraft(lens, MAXBITS) <= Pow2(MAXBITS) && n < |lens| && NextFree(next, lens, n)
    ensures lens[n] == 0 ==> NextFree(next, lens, n + 1)
    ensures lens[n] != 0 ==>
      next[lens[n]] == CodeValue(lens, n) < 32768 && NextFree(next[lens[n] := next[lens[n]] + 1], lens, n + 1)
  {
    FilterNext(lens, n);
    if lens[n] != 0 {
      FirstCodeBound(lens, lens[n]);
    }
    hide FirstCode, Filter, Kraft, Pow2;
    var next' := if lens[n] == 0 then next else next[lens[n] := next[lens[n]] + 1];
    forall b | 1 <= b <= MAXBITS
      ensures next'[b] == FirstCode(lens, b) + |Filter(lens[..n + 1], b)|
    {
    }
  }

  lemma FirstCodeNext(lens: seq<nat>, l: nat)
    requires 1 <= l
    ensures FirstCode(lens, l) == 2 * ((if l == 1 then 0 else FirstCode(lens, l - 1) + |Filter(lens, l - 1)|))
  {
  }

  lemma FilterNext(lens: seq<nat>, n: nat)
    requires n < |lens|
    ensures forall b :: |Filter(lens[..n + 1], b)| == |Filter(lens[..n], b)| + (if lens[n] == b then 1 else 0)
    ensures forall b :: |Filter(lens[..0], b)| == 0
    ensures |Filter(lens[..n + 1], lens[n])| <= |Filter(lens, lens[n])|
  {
    assert lens[..n + 1][..n] == lens[..n];
    FilterPrefix(lens, n + 1, lens[n]);
  }

  /** `build_tree` up to the bit lengths: collect, order, merge, measure. `freq` is the
      frequency field, `dl` the field that holds first the father and then the length. */
  method BuildLengths(heap: array<nat>, depth: array<nat>, freq: array<nat>, dl: array<nat>, bl: array<nat>,
                      elems: nat, max: nat)
    returns (maxCode: nat, ghost leaves: set<nat>, ghost cut: bool)
    requires heap != depth && heap != freq && heap != dl && heap != bl && depth != freq && depth != dl && depth != bl
    requires freq != dl && freq != bl && dl != bl
    requires 3 <= elems && 2 * elems <= freq.Length == depth.Length == dl.Length && 2 * elems < heap.Length
    requires bl.Length == MAXBITS + 1 && 1 <= max <= MAXBITS && elems <= Pow2(max)
    modifies heap, depth, freq, dl, bl
    ensures GoodLengths(dl[..elems], bl[..], leaves, max) && IsMaxCode(maxCode, leaves) && maxCode < elems
    ensures forall n :: 0 <= n < elems && old(freq[n]) != 0 ==> n in leaves
    ensures 2 <= |set n | 0 <= n < elems && old(freq[n]) != 0| ==>
              forall n :: n in leaves ==> 0 <= n < elems && old(freq[n]) != 0
    ensures 2 <= |set n | 0 <= n < elems && old(freq[n]) != 0| ==> Best(leaves, old(freq[..]), dl[..elems], max, cut)
    ensures |set n | 0 <= n < elems && old(freq[n]) != 0| < 2 ==> forall n :: 0 <= n < elems ==> dl[n] <= 1
  {
    hide Collected, GoodLengths, TreeList, Merging, HeapFrom, UnusedZero, SymbolsKept, Shl, Summed, Occurring,
         Optimal, Fib, Over, Best, Feasible, Monotone;
    var len0, max0; ghost var used;
    len0, max0, used := CollectUsed(heap, depth, freq, dl, elems);
    UsedSymbols(heap[..], len0, freq[..], used, elems);
    assert used == set n | 0 <= n < elems && old(freq[n]) != 0;
    var len, maxC;
    len, maxC, leaves := ForceTwo(heap, depth, freq, elems, len0, max0, used);
    CollectedNodes(heap[..], len, freq[..], depth[..], leaves, elems);
    ghost var heap0: seq<nat> := heap[..];
    maxCode := maxC;
    Unused0(dl[..], leaves, elems);
    Heapify(heap, len, freq[..], depth[..]);
    FirstState(heap[..], len, freq[..], depth[..], dl[..], leaves, elems);
    ghost var f: seq<nat>, d: seq<nat> := freq[..], dl[..];
    var k := MergeAll(heap, depth, freq, dl, len, leaves, elems);
    UnusedKept(f, freq[..], d, dl[..], leaves, elems);
    SymbolsOccur(heap0, len, f, freq[..], d, dl[..], leaves, elems);
    cut := GenBitlen(heap, dl, bl, freq[..], leaves, elems, maxCode, k, max);
    if 2 <= len0 {
      BestKept(leaves, old(freq[..]), freq[..], dl[..elems], max, cut);
    } else {
      TwoLeaves(dl[..elems], bl[..], leaves, max);
      assert forall n :: 0 <= n < elems ==> dl[..elems][n] == dl[n];
    }
  }

  /** Two leaves have one bit each. */
  lemma TwoLeaves(lens: seq<nat>, bl: seq<nat>, leaves: set<nat>, max: nat)
    requires GoodLengths(lens, bl, leaves, max) && |leaves| == 2 && Members(leaves, |lens|)
    ensures forall n :: 0 <= n < |lens| ==> lens[n] <= 1
  {
    hide Kraft, Histogram, Shl, Cost, Space;
    var a :| a in leaves;
    assert |leaves - {a}| == 1;
    var b :| b in leaves - {a};
    assert |leaves - {a} - {b}| == 0;
    assert leaves == {a, b};
    GoodSpace(lens, bl, leaves, max);
    TwoOut(leaves, lens, lens, MAXBITS, a, b);
    assert leaves - {a, b} == {};
    NoSpace(lens);
    HalfOrLess(lens[a]);
    HalfOrLess(lens[b]);
  }

  lemma GoodSpace(lens: seq<nat>, bl: seq<nat>, leaves: set<nat>, max: nat)
    requires GoodLengths(lens, bl, leaves, max)
    ensures Space(leaves, lens, MAXBITS) == Pow2(MAXBITS)
  {
    hide Kraft, Over, Shl;
    KraftIsOver(leaves, lens, |lens|);
    assert lens[..|lens|] == lens;
  }

  lemma NoSpace(lens: seq<nat>)
    ensures Space({}, lens, MAXBITS) == 0
  {
    OverZero({}, Spaces(lens, MAXBITS), |lens|);
  }

  lemma HalfOrLess(l: nat)
    requires 1 <= l <= MAXBITS
    ensures 2 * Pow2(MAXBITS - l) <= Pow2(MAXBITS) && (2 <= l ==> 4 * Pow2(MAXBITS - l) <= Pow2(MAXBITS))
    ensures 0 < Pow2(MAXBITS)
  {
    Pow2Scale(MAXBITS - l, l);
    ShlMono(0, 0, MAXBITS);
    if 2 <= l {
      Pow2Scale(MAXBITS - l, l - 1);
      assert Pow2(MAXBITS) == 2 * Pow2(MAXBITS - 1);
    }
  }

  /** More frequent symbols are no longer; unless lengths were cut they are optimal, and they
      are not cut if the total frequency is small. */
  ghost predicate Best(leaves: set<nat>, freq: seq<nat>, lens: seq<nat>, max: nat, cut: bool) {
    && |lens| <= |freq| && Feasible(leaves, lens, MAXBITS) && Monotone(leaves, freq, lens)
    && (!cut ==> Optimal(leaves, freq, lens))
    && (Over(leaves, freq, |lens|) < Fib(max + 3) ==> !cut)
  }

  lemma BestKept(leaves: set<nat>, freq: seq<nat>, freq': seq<nat>, lens: seq<nat>, max: nat, cut: bool)
    requires |lens| <= |freq'| && (!cut ==> Optimal(leaves, freq', lens))
    requires Feasible(leaves, lens, MAXBITS) && Monotone(leaves, freq', lens)
    requires Over(leaves, freq', |lens|) < Fib(max + 3) ==> !cut
    requires |lens| <= |freq| && forall i :: 0 <= i < |lens| ==> freq'[i] == freq[i]
    ensures Best(leaves, freq, lens, max, cut)
  {
    hide Cost, Fib, Over, Feasible;
    Agree(leaves, leaves, freq, freq', |lens|);
    forall l: seq<nat> | |l| == |lens|
      ensures Cost(leaves, freq, l) == Cost(leaves, freq', l)
    {
      CostWeights(leaves, freq, freq', l);
    }
  }

  lemma SymbolsOccur(h: seq<nat>, len: nat, freq: seq<nat>, freq': seq<nat>, dl: seq<nat>, dl': seq<nat>,
                     leaves: set<nat>, elems: nat)
    requires Collected(h, len, freq, leaves, elems) && SymbolsKept(freq, freq', dl, dl', leaves, elems)
    ensures Occurring(freq', leaves, elems) && forall i :: 0 <= i < elems ==> freq'[i] == freq[i]
  {
  }

  lemma UsedSymbols(h: seq<nat>, len: nat, freq: seq<nat>, leaves: set<nat>, elems: nat)
    requires Collected(h, len, freq, leaves, elems) && |leaves| == len
    ensures leaves == set n | 0 <= n < elems && freq[n] != 0
    ensures |set n | 0 <= n < elems && freq[n] != 0| == len
  {
    assert leaves == set n | 0 <= n < elems && freq[n] != 0;
  }

  lemma CollectedNodes(h: seq<nat>, len: nat, freq: seq<nat>, depth: seq<nat>, leaves: set<nat>, elems: nat)
    requires Collected(h, len, freq, leaves, elems) && |freq| == |depth|
    ensures Nodes(h, len, freq, depth) && len <= elems && (0 < len ==> leaves != {})
    ensures multiset(h[1..len + 1]) == multiset(leaves) && forall n :: n in leaves ==> n < elems
  {
    forall i | 1 <= i <= len
      ensures h[i] < |freq|
    {
      assert h[i] == h[1..len + 1][i - 1];
      assert h[i] in multiset(h[1..len + 1]);
    }
    if 0 < len {
      assert h[1] == h[1..len + 1][0];
      assert h[1] in multiset(leaves);
    }
  }

  lemma Unused0(dl: seq<nat>, leaves: set<nat>, elems: nat)
    requires elems <= |dl| && forall n :: 0 <= n < elems && n !in leaves ==> dl[n] == 0
    ensures UnusedZero(dl, leaves, elems)
  {
  }

  lemma UnusedKept(freq: seq<nat>, freq': seq<nat>, dl: seq<nat>, dl': seq<nat>, leaves: set<nat>, elems: nat)
    requires UnusedZero(dl, leaves, elems) && SymbolsKept(freq, freq', dl, dl', leaves, elems)
    ensures UnusedZero(dl', leaves, elems)
  {
  }

  /** The symbols with a frequency. */
  ghost function Occurs(freq: seq<nat>, elems: nat): set<nat>
    requires elems <= |freq|
  {
    set n | 0 <= n < elems && freq[n] != 0
  }

  /** `build_tree`: lengths and code words for all symbols with a frequency. The array `fc`
      holds frequencies on entry and code words on return, `dl` the code lengths. */
  method BuildTree(heap: array<nat>, depth: array<nat>, fc: array<nat>, dl: array<nat>, bl: array<nat>, elems: nat,
                   max: nat)
    returns (maxCode: nat, ghost cut: bool)
    requires heap != depth && heap != fc && heap != dl && heap != bl && depth != fc && depth != dl && depth != bl
    requires fc != dl && fc != bl && dl != bl
    requires 3 <= elems && 2 * elems <= fc.Length == depth.Length == dl.Length && 2 * elems < heap.Length
    requires bl.Length == MAXBITS + 1 && 1 <= max <= MAXBITS && elems <= Pow2(max)
    modifies heap, depth, fc, dl, bl
    ensures ValidLengths(dl[..elems]) && maxCode < elems
    // every length is within the limit and the Kraft sum is exactly one
    ensures forall n :: 0 <= n < elems ==> dl[n] <= max
    ensures Kraft(dl[..elems], MAXBITS) == Pow2(MAXBITS)
    // every symbol that occurs has a code, and no other one if at least two occur
    ensures forall n :: 0 <= n < elems && old(fc[n]) != 0 ==> dl[n] != 0
    ensures 2 <= |set n | 0 <= n < elems && old(fc[n]) != 0| ==>
              forall n :: 0 <= n < elems && dl[n] != 0 ==> old(fc[n]) != 0
    ensures dl[maxCode] != 0 && forall n :: maxCode < n < elems ==> dl[n] == 0
    // unless lengths were cut at the limit, which takes a total frequency of Fib(max + 3),
    // no lengths with a Kraft sum of at most one give fewer bits in all
    ensures var used := Occurs(old(fc[..]), elems);
      if 2 <= |used| then Best(used, old(fc[..]), dl[..elems], max, cut) else forall n :: 0 <= n < elems ==> dl[n] <= 1
    // the codes are the canonical ones
    ensures forall n :: 0 <= n < elems && dl[n] != 0 ==> fc[n] == Rev(CodeValue(dl[..elems], n), dl[n])
  {
    hide Kraft, CodeValue, Rev, Histogram, Shl, Filter, Best;
    ghost var leaves;
    ghost var used := set n | 0 <= n < elems && fc[n] != 0;
    maxCode, leaves, cut := BuildLengths(heap, depth, fc, dl, bl, elems, max);
    assert 2 <= |used| ==> leaves == used;
    assert used == Occurs(old(fc[..]), elems);
    var lens: seq<nat> := dl[..elems];
    assert forall n :: 0 <= n < elems ==> dl[n] == lens[n];
    GenCodes(fc, lens, maxCode, bl[..]);
  }
}

/** Why joining the two least frequent nodes is optimal: any lengths for the nodes before a
    join give lengths for the nodes after it that cost less by the frequency of the new node. */
module Optimality {
  import opened Bits

  // ---------------------------------------------------------------- sums over sets of nodes

  /** The sum of `c` over the members of `s` below `n`. */
  ghost function Over(s: set<nat>, c: seq<int>, n: nat): int
    requires n <= |c|
  {
    if n == 0 then 0 else Over(s, c, n - 1) + if n - 1 in s then c[n - 1] else 0
  }

  lemma {:induction false} TakeOut(s: set<nat>, c: seq<int>, n: nat, x: nat)
    requires x < n <= |c| && x in s
    ensures Over(s, c, n) == Over(s - {x}, c, n) + c[x]
  {
    if x < n - 1 {
      TakeOut(s, c, n - 1, x);
    } else {
      Agree(s, s - {x}, c, c, n - 1);
    }
  }

  /** Sums that agree below `n`. */
  lemma {:induction false} Agree(s: set<nat>, t: set<nat>, c: seq<int>, d: seq<int>, n: nat)
    requires n <= |c| && n <= |d| && forall v :: 0 <= v < n ==> (v in s <==> v in t) && (v in s ==> c[v] == d[v])
    ensures Over(s, c, n) == Over(t, d, n)
  {
    if n != 0 {
      Agree(s, t, c, d, n - 1);
    }
  }

  lemma {:induction false} OverNonNegative(s: set<nat>, c: seq<int>, n: nat)
    requires n <= |c| && forall v :: 0 <= v < n && v in s ==> 0 <= c[v]
    ensures 0 <= Over(s, c, n)
  {
    if n != 0 {
      OverNonNegative(s, c, n - 1);
    }
  }

  lemma {:induction false} OverZero(s: set<nat>, c: seq<int>, n: nat)
    requires n <= |c| && forall v :: 0 <= v < n && v in s ==> c[v] == 0
    ensures Over(s, c, n) == 0
  {
    if n != 0 {
      OverZero(s, c, n - 1);
    }
  }

  lemma {:induction false} OverDouble(s: set<nat>, c: seq<int>, d: seq<int>, n: nat)
    requires n <= |c| && n <= |d| && forall v :: 0 <= v < n && v in s ==> d[v] == 2 * c[v]
    ensures Over(s, d, n) == 2 * Over(s, c, n)
  {
    if n != 0 {
      OverDouble(s, c, d, n - 1);
    }
  }

  // ---------------------------------------------------------------- cost and Kraft sum

  ghost function Paid(w: nat, l: nat): nat {
    w * l
  }

  /** What each node costs. */
  ghost function Costs(w: seq<nat>, l: seq<nat>): (c: seq<int>)
    requires |l| <= |w|
    ensures |c| == |l| && forall v :: 0 <= v < |l| ==> c[v] == Paid(w[v], l[v])
  {
    seq(|l|, v requires 0 <= v < |l| => Paid(w[v], l[v]))
  }

  /** The code space that each node takes, of `2^b` in all. */
  ghost function Spaces(l: seq<nat>, b: nat): (c: seq<int>)
    ensures |c| == |l| && forall v :: 0 <= v < |l| ==> c[v] == if l[v] <= b then Pow2(b - l[v]) else 0
  {
    seq(|l|, v requires 0 <= v < |l| => if l[v] <= b then Pow2(b - l[v]) else 0)
  }

  ghost function Cost(s: set<nat>, w: seq<nat>, l: seq<nat>): int
    requires |l| <= |w|
  {
    Over(s, Costs(w, l), |l|)
  }

  ghost function Space(s: set<nat>, l: seq<nat>, b: nat): int {
    Over(s, Spaces(l, b), |l|)
  }

  ghost predicate Members(s: set<nat>, n: nat) {
    forall v :: v in s ==> v < n
  }

  /** No member is longer than `b`. */
  ghost predicate AtMost(s: set<nat>, l: seq<nat>, b: nat) {
    Members(s, |l|) && forall v :: v in s ==> l[v] <= b
  }

  /** Lengths for the members of `s` whose Kraft sum is at most one. */
  ghost predicate Feasible(s: set<nat>, l: seq<nat>, b: nat) {
    AtMost(s, l, b) && Space(s, l, b) <= Pow2(b)
  }

  lemma CostOut(s: set<nat>, w: seq<nat>, l: seq<nat>, x: nat)
    requires |l| <= |w| && x < |l| && x in s
    ensures Cost(s, w, l) == Cost(s - {x}, w, l) + Paid(w[x], l[x])
  {
    TakeOut(s, Costs(w, l), |l|, x);
  }

  lemma SpaceOut(s: set<nat>, l: seq<nat>, b: nat, x: nat)
    requires x < |l| && x in s && l[x] <= b
    ensures Space(s, l, b) == Space(s - {x}, l, b) + Pow2(b - l[x])
  {
    TakeOut(s, Spaces(l, b), |l|, x);
  }

  lemma CostAgree(s: set<nat>, w: seq<nat>, l: seq<nat>, k: seq<nat>)
    requires |l| == |k| <= |w| && forall v :: 0 <= v < |l| && v in s ==> l[v] == k[v]
    ensures Cost(s, w, l) == Cost(s, w, k)
  {
    Agree(s, s, Costs(w, l), Costs(w, k), |l|);
  }

  lemma SpaceAgree(s: set<nat>, l: seq<nat>, k: seq<nat>, b: nat)
    requires |l| == |k| && forall v :: 0 <= v < |l| && v in s ==> l[v] == k[v]
    ensures Space(s, l, b) == Space(s, k, b)
  {
    Agree(s, s, Spaces(l, b), Spaces(k, b), |l|);
  }

  lemma SpaceNonNegative(s: set<nat>, l: seq<nat>, b: nat)
    ensures 0 <= Space(s, l, b)
  {
    OverNonNegative(s, Spaces(l, b), |l|);
  }

  lemma CostNonNegative(s: set<nat>, w: seq<nat>, l: seq<nat>)
    requires |l| <= |w|
    ensures 0 <= Cost(s, w, l)
  {
    OverNonNegative(s, Costs(w, l), |l|);
  }

  /** Cost and space without two members. */
  lemma TwoOut(s: set<nat>, w: seq<nat>, l: seq<nat>, b: nat, x: nat, y: nat)
    requires |l| <= |w| && x < |l| && y < |l| && x in s && y in s && x != y && l[x] <= b && l[y] <= b
    ensures Cost(s, w, l) == Cost(s - {x, y}, w, l) + Paid(w[x], l[x]) + Paid(w[y], l[y])
    ensures Space(s, l, b) == Space(s - {x, y}, l, b) + Pow2(b - l[x]) + Pow2(b - l[y])
  {
    hide Cost, Space, Paid, Shl;
    assert s - {x} - {y} == s - {x, y};
    CostOut(s, w, l, x);
    CostOut(s - {x}, w, l, y);
    SpaceOut(s, l, b, x);
    SpaceOut(s - {x}, l, b, y);
  }

  /** Lengths `l` and `k` that agree on all members but `x` and `y`. */
  lemma TwoChanged(s: set<nat>, w: seq<nat>, l: seq<nat>, k: seq<nat>, b: nat, x: nat, y: nat)
    requires |l| == |k| <= |w| && forall v :: 0 <= v < |l| && v in s && v != x && v != y ==> l[v] == k[v]
    ensures Cost(s - {x, y}, w, l) == Cost(s - {x, y}, w, k)
    ensures Space(s - {x, y}, l, b) == Space(s - {x, y}, k, b)
  {
    hide Cost, Space;
    CostAgree(s - {x, y}, w, l, k);
    SpaceAgree(s - {x, y}, l, k, b);
  }

  /** Entries behind the members do not matter. */
  lemma {:induction false} OverLonger(s: set<nat>, c: seq<int>, d: seq<int>, m: nat, n: nat)
    requires Members(s, m) && m <= n <= |d| && m <= |c| && c[..m] == d[..m]
    ensures Over(s, c, m) == Over(s, d, n)
  {
    if m < n {
      OverLonger(s, c, d, m, n - 1);
    } else {
      forall v | 0 <= v < m
        ensures c[v] == d[v]
      {
        assert c[..m][v] == d[..m][v];
      }
      Agree(s, s, c, d, m);
    }
  }

  lemma CostLonger(s: set<nat>, w: seq<nat>, l: seq<nat>, k: seq<nat>)
    requires Members(s, |l|) && |l| <= |k| <= |w| && k[..|l|] == l
    ensures Cost(s, w, l) == Cost(s, w, k)
  {
    hide Over;
    assert Costs(w, k)[..|l|] == Costs(w, l)[..|l|];
    OverLonger(s, Costs(w, l), Costs(w, k), |l|, |k|);
  }

  lemma FeasibleLonger(s: set<nat>, l: seq<nat>, k: seq<nat>, b: nat)
    requires Feasible(s, l, b) && |l| <= |k| && k[..|l|] == l
    ensures Feasible(s, k, b) && Members(s, |l|)
  {
    hide Over;
    assert Spaces(k, b)[..|l|] == Spaces(l, b)[..|l|];
    OverLonger(s, Spaces(l, b), Spaces(k, b), |l|, |k|);
    forall v | v in s
      ensures k[v] <= b
    {
      assert k[v] == k[..|l|][v];
    }
  }

  /** Only the frequencies of the members matter. */
  lemma CostWeights(s: set<nat>, w: seq<nat>, x: seq<nat>, l: seq<nat>)
    requires |l| <= |w| && |l| <= |x| && forall v :: 0 <= v < |l| ==> w[v] == x[v]
    ensures Cost(s, w, l) == Cost(s, x, l)
  {
    Agree(s, s, Costs(w, l), Costs(x, l), |l|);
  }

  // ---------------------------------------------------------------- the exchange

  lemma Exchange(wx: nat, wy: nat, lx: nat, ly: nat)
    requires wx <= wy && lx <= ly
    ensures Paid(wx, ly) + Paid(wy, lx) <= Paid(wx, lx) + Paid(wy, ly)
  {
    assert 0 <= (wy - wx) * (ly - lx);
  }

  /** The less frequent of two members may as well have the greater length. */
  lemma Swap(s: set<nat>, w: seq<nat>, l: seq<nat>, b: nat, x: nat, y: nat) returns (k: seq<nat>)
    requires |l| <= |w| && Feasible(s, l, b) && x in s && y in s && w[x] <= w[y] && l[x] <= l[y]
    ensures k == l[x := l[y]][y := l[x]] && Feasible(s, k, b) && Cost(s, w, k) <= Cost(s, w, l)
  {
    hide Cost, Space, Paid, Shl;
    k := l[x := l[y]][y := l[x]];
    if x == y {
      assert k == l;
    } else {
      TwoOut(s, w, l, b, x, y);
      TwoOut(s, w, k, b, x, y);
      TwoChanged(s, w, l, k, b, x, y);
      Exchange(w[x], w[y], l[x], l[y]);
    }
  }

  /** A member of greatest length. */
  lemma {:induction false} Longest(s: set<nat>, l: seq<nat>) returns (x: nat)
    requires s != {} && Members(s, |l|)
    ensures x in s && forall v :: v in s ==> l[v] <= l[x]
    decreases |s|
  {
    x :| x in s;
    if s != {x} {
      assert s - {x} != {};
      var y := Longest(s - {x}, l);
      if l[x] <= l[y] {
        x := y;
      }
    }
  }

  lemma {:induction false} SpaceDoubles(s: set<nat>, l: seq<nat>, m: nat, b: nat)
    requires m <= b && AtMost(s, l, m)
    ensures 0 <= Space(s, l, m) && Space(s, l, b) == Shl(Space(s, l, m), b - m)
  {
    SpaceNonNegative(s, l, m);
    if m < b {
      SpaceDoubles(s, l, m, b - 1);
      forall v | 0 <= v < |l| && v in s
        ensures Spaces(l, b)[v] == 2 * Spaces(l, b - 1)[v]
      {
        assert l[v] <= m <= b - 1;
      }
      OverDouble(s, Spaces(l, b - 1), Spaces(l, b), |l|);
    }
  }

  /** If all other members are at most `m` long, `x` need not be longer either. */
  lemma Shorten(s: set<nat>, w: seq<nat>, l: seq<nat>, b: nat, x: nat, m: nat) returns (k: seq<nat>)
    requires |l| <= |w| && Feasible(s, l, b) && x in s && m <= l[x] && AtMost(s - {x}, l, m)
    ensures k == l[x := m] && Feasible(s, k, b) && Cost(s, w, k) <= Cost(s, w, l)
  {
    k := l[x := m];
    var rest := s - {x};
    SpaceOut(s, l, b, x);
    SpaceOut(s, k, b, x);
    SpaceAgree(rest, l, k, b);
    SpaceDoubles(rest, l, m, b);
    RoomForOne(Space(rest, l, m), m, b, l[x]);
    CostOut(s, w, l, x);
    CostOut(s, w, k, x);
    CostAgree(rest, w, l, k);
    PaidLess(w[x], m, l[x]);
  }

  lemma PaidLess(w: nat, m: nat, l: nat)
    requires m <= l
    ensures Paid(w, m) <= Paid(w, l)
  {
    assert 0 <= w * (l - m);
  }

  /** Multiples of `2^(b-m)` that leave room below `2^b` leave room for one more. */
  lemma RoomForOne(used: nat, m: nat, b: nat, l: nat)
    requires m <= l <= b && Shl(used, b - m) + Pow2(b - l) <= Pow2(b)
    ensures Shl(used, b - m) + Pow2(b - m) <= Pow2(b)
  {
    hide Shl;
    ShlShl(1, m, b - m);
    ShlMono(0, 0, b - l);
    if Pow2(m) <= used {
      ShlMono(Pow2(m), used, b - m);
    } else {
      ShlMono(used, Pow2(m), b - m);
    }
  }

  // ---------------------------------------------------------------- the join

  /** `n` and `m` are the two least frequent members. */
  ghost predicate LeastTwo(s: set<nat>, w: seq<nat>, n: nat, m: nat)
    requires Members(s, |w|)
  {
    n in s && m in s && n != m && w[n] <= w[m] && forall v :: v in s && v != n && v != m ==> w[m] <= w[v]
  }

  /** The two least frequent members may as well be the longest, and equally long. */
  lemma Levelled(s: set<nat>, w: seq<nat>, l: seq<nat>, b: nat, n: nat, m: nat) returns (k: seq<nat>)
    requires |l| <= |w| && Feasible(s, l, b) && Members(s, |w|) && LeastTwo(s, w, n, m)
    ensures |k| == |l| && Feasible(s, k, b) && Cost(s, w, k) <= Cost(s, w, l) && k[n] == k[m]
  {
    hide Cost, Space;
    var x := Longest(s, l);
    var k1 := Swap(s, w, l, b, n, x);
    assert m in s - {n};
    var y := Longest(s - {n}, k1);
    var k2 := Swap(s, w, k1, b, m, y);
    k := Shorten(s, w, k2, b, n, k2[m]);
  }

  ghost function Joined(s: set<nat>, n: nat, m: nat, z: nat): set<nat> {
    s - {n, m} + {z}
  }

  lemma PaidSplit(wn: nat, wm: nat, d: nat)
    ensures Paid(wn, d + 1) + Paid(wm, d + 1) == Paid(wn + wm, d) + wn + wm
  {
  }

  /** One above two members of equal length. */
  lemma OneAbove(s: set<nat>, w: seq<nat>, l: seq<nat>, b: nat, n: nat, m: nat, z: nat, d: nat)
    requires |l| <= |w| && n in s && m in s && n != m && z !in s && Members(s, |l|) && z < |l| && w[z] == w[n] + w[m]
    requires l[n] == l[m] == d + 1 && l[z] == d && d + 1 <= b
    ensures Cost(s, w, l) == Cost(Joined(s, n, m, z), w, l) + w[z]
    ensures Space(s, l, b) == Space(Joined(s, n, m, z), l, b)
  {
    hide Cost, Space, Paid;
    var t := Joined(s, n, m, z);
    assert t - {z} == s - {n, m};
    TwoOut(s, w, l, b, n, m);
    CostOut(t, w, l, z);
    SpaceOut(t, l, b, z);
    PaidSplit(w[n], w[m], d);
    assert Pow2(b - d) == 2 * Pow2(b - (d + 1));
  }

  /** Two members of length 0 are more than there is space for. */
  lemma NotBothZero(s: set<nat>, w: seq<nat>, l: seq<nat>, b: nat, n: nat, m: nat)
    requires |l| <= |w| && Feasible(s, l, b) && n in s && m in s && n != m
    ensures 0 < l[n] || 0 < l[m]
  {
    hide Cost, Shl;
    TwoOut(s, w, l, b, n, m);
    SpaceNonNegative(s - {n, m}, l, b);
    ShlMono(0, 0, b);
  }

  /** Lengths after the join, cheaper by the frequency of the new node. */
  lemma Join(s: set<nat>, w: seq<nat>, l: seq<nat>, b: nat, n: nat, m: nat, z: nat) returns (k: seq<nat>)
    requires |l| <= |w| && Feasible(s, l, b) && Members(s, |w|) && LeastTwo(s, w, n, m)
    requires z !in s && z < |l| && w[z] == w[n] + w[m]
    ensures |k| == |l| && Feasible(Joined(s, n, m, z), k, b)
    ensures Cost(Joined(s, n, m, z), w, k) + w[z] <= Cost(s, w, l)
  {
    hide Cost, Space, Shl;
    var k1 := Levelled(s, w, l, b, n, m);
    NotBothZero(s, w, k1, b, n, m);
    var d := k1[n] - 1;
    k := k1[z := d];
    CostAgree(s, w, k1, k);
    SpaceAgree(s, k1, k, b);
    OneAbove(s, w, k, b, n, m, z, d);
  }

  // ---------------------------------------------------------------- order

  lemma ExchangeMore(wx: nat, wy: nat, lx: nat, ly: nat)
    requires wx < wy && lx < ly
    ensures Paid(wx, ly) + Paid(wy, lx) < Paid(wx, lx) + Paid(wy, ly)
  {
    assert 1 <= (wy - wx) * (ly - lx);
  }

  /** A more frequent member that is longer is better exchanged. */
  lemma SwapMore(s: set<nat>, w: seq<nat>, l: seq<nat>, b: nat, x: nat, y: nat) returns (k: seq<nat>)
    requires |l| <= |w| && Feasible(s, l, b) && x in s && y in s && w[x] < w[y] && l[x] < l[y]
    ensures |k| == |l| && Feasible(s, k, b) && Cost(s, w, k) < Cost(s, w, l)
  {
    hide Cost, Space, Paid, Shl;
    k := l[x := l[y]][y := l[x]];
    TwoOut(s, w, l, b, x, y);
    TwoOut(s, w, k, b, x, y);
    TwoChanged(s, w, l, k, b, x, y);
    ExchangeMore(w[x], w[y], l[x], l[y]);
  }
}

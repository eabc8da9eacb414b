/** The anti-replay window of bin/mudband/common/wireguard.c (`wireguard_check_replay`, after
    Appendix C of RFC 2401). */
module Replay {
  import opened Common
  import opened Bits
  import opened BitIO

  const WINDOW: nat := 32

  // ---------------------------------------------------------------- single bits

  lemma {:induction false} BitShl(x: nat, k: nat, d: nat)
    ensures Bit(Shl(x, k), d) == (k <= d && Bit(x, d - k))
    decreases k
  {
    if k != 0 && d != 0 {
      BitShl(x, k - 1, d - 1);
    }
  }

  lemma {:induction false} BitLow(x: nat, n: nat, d: nat)
    ensures Bit(Low(x, n), d) == (d < n && Bit(x, d))
    decreases n
  {
    if n == 0 {
      BitZero(d);
    } else if d != 0 {
      BitLow(x / 2, n - 1, d - 1);
    }
  }

  lemma BitPow(k: nat, d: nat)
    ensures Bit(Pow2(k), d) == (d == k)
  {
    BitShl(1, k, d);
    if k <= d && d - k != 0 {
      BitZero(d - k - 1);
    }
  }

  // ---------------------------------------------------------------- the check

  /** Highest number accepted, and which of the 32 numbers up to it were. */
  datatype Window = Window(counter: nat, bitmap: nat)

  const EMPTY: Window := Window(0, 0)

  /** One call with the counter of a packet, as the code does it: `diff` is 32 bits wide. */
  function Check(w: Window, counter: nat): (Window, bool) {
    var num := (counter + 1) % U64;
    if num == 0 then (w, false)
    else if num > w.counter then
      var diff := (num - w.counter) % U32;
      if diff < WINDOW then (Window(num, Or(Low(Shl(w.bitmap, diff), WINDOW), 1)), true)
      else (Window(num, 1), true)
    else
      var diff := (w.counter - num) % U32;
      if diff >= WINDOW then (w, false)
      else if Bit(w.bitmap, diff) then (w, false)
      else (w.(bitmap := Or(w.bitmap, Pow2(diff))), true)
  }

  class Keypair {
    var replayCounter: nat
    var replayBitmap: nat

    constructor ()
      ensures Window(replayCounter, replayBitmap) == EMPTY
    {
      replayCounter, replayBitmap := 0, 0;
    }

    /** `wireguard_check_replay`. */
    method CheckReplay(seq0: nat) returns (result: bool)
      requires seq0 < U64
      modifies this
      ensures (Window(replayCounter, replayBitmap), result) == Check(old(Window(replayCounter, replayBitmap)), seq0)
    {
      result := false;
      var num := (seq0 + 1) % U64;
      if num != 0 {
        if num > replayCounter {
          var diff := (num - replayCounter) % U32;
          if diff < WINDOW {
            replayBitmap := Low(Shl(replayBitmap, diff), WINDOW);
            replayBitmap := Or(replayBitmap, 1);
          } else {
            replayBitmap := 1;
          }
          replayCounter := num;
          result := true;
        } else {
          var diff := (replayCounter - num) % U32;
          if diff < WINDOW {
            if Bit(replayBitmap, diff) {
            } else {
              replayBitmap := Or(replayBitmap, Pow2(diff));
              result := true;
            }
          }
        }
      }
    }
  }

  // ---------------------------------------------------------------- the specification

  /** What the window stands for: the numbers (counters plus one) accepted so far. */
  ghost predicate Means(w: Window, seen: set<nat>) {
    && (forall n :: n in seen ==> 1 <= n <= w.counter)
    && (w.counter != 0 ==> w.counter in seen)
    && (forall d :: 0 <= d < 32 ==> (Bit(w.bitmap, d) <==> d < w.counter && w.counter - d in seen))
    && (forall d :: 32 <= d ==> !Bit(w.bitmap, d))
  }

  /** A number is accepted if it is new, and not more than 31 behind the highest one. */
  predicate Fresh(seen: set<nat>, top: nat, n: nat) {
    n !in seen && (n > top || top - n < 32)
  }

  /** Distance between a number and the head of the window. */
  function Distance(w: Window, n: nat): nat {
    if n > w.counter then n - w.counter else w.counter - n
  }

  /** The call does what the specification says. */
  ghost predicate Correct(w: Window, seen: set<nat>, counter: nat) {
    var n := counter + 1;
    var (w', ok) := Check(w, counter);
    && (ok <==> Fresh(seen, w.counter, n))
    && Means(w', if ok then seen + {n} else seen)
  }

  lemma ShiftedBit(x: nat, k: nat, d: nat)
    ensures Bit(Or(Low(Shl(x, k), WINDOW), 1), d) == (d == 0 || (d < WINDOW && k <= d && Bit(x, d - k)))
  {
    BitOne(d);
    hide Bit, Or, Low, Shl;
    BitOr(Low(Shl(x, k), WINDOW), 1, d);
    BitLow(Shl(x, k), WINDOW, d);
    BitShl(x, k, d);
  }

  lemma BitOne(d: nat)
    ensures Bit(1, d) == (d == 0)
  {
    assert Pow2(0) == 1;
    BitPow(0, d);
  }

  lemma MarkedBit(x: nat, k: nat, d: nat)
    ensures Bit(Or(x, Pow2(k)), d) == (Bit(x, d) || d == k)
  {
    hide Bit, Or, Shl;
    BitOr(x, Pow2(k), d);
    BitPow(k, d);
  }

  lemma AllBits(x: nat, k: nat)
    ensures forall d: nat ::
      Bit(Or(Low(Shl(x, k), WINDOW), 1), d) == (d == 0 || (d < WINDOW && k <= d && Bit(x, d - k)))
    ensures forall d: nat :: Bit(Or(x, Pow2(k)), d) == (Bit(x, d) || d == k)
    ensures forall d: nat :: Bit(1, d) == (d == 0)
  {
    hide Bit, Or, Low, Shl;
    forall d: nat
      ensures Bit(Or(Low(Shl(x, k), WINDOW), 1), d) == (d == 0 || (d < WINDOW && k <= d && Bit(x, d - k)))
    {
      ShiftedBit(x, k, d);
    }
    forall d: nat
      ensures Bit(Or(x, Pow2(k)), d) == (Bit(x, d) || d == k)
    {
      MarkedBit(x, k, d);
    }
    forall d: nat
      ensures Bit(1, d) == (d == 0)
    {
      BitOne(d);
    }
  }

  /** While the distance to the head is below 2^32, the window refines the specification:
      every unseen number above the head or at most 31 below it is accepted, no other one is,
      and bit `d` says whether the head minus `d` was accepted. */
  lemma CheckRefines(w: Window, seen: set<nat>, counter: nat)
    requires Means(w, seen) && counter + 1 < U64 && Distance(w, counter + 1) < U32
    ensures Correct(w, seen, counter)
  {
    if counter + 1 > w.counter {
      RefinesAhead(w, seen, counter);
    } else {
      RefinesBehind(w, seen, counter);
    }
    hide Correct;
  }

  lemma RefinesAhead(w: Window, seen: set<nat>, counter: nat)
    requires Means(w, seen) && w.counter < counter + 1 < U64 && Distance(w, counter + 1) < U32
    ensures Correct(w, seen, counter)
  {
    var n := counter + 1;
    AllBits(w.bitmap, n - w.counter);
    hide Bit, Or, Low, Shl;
    assert n % U64 == n && (n - w.counter) % U32 == n - w.counter;
  }

  lemma RefinesBehind(w: Window, seen: set<nat>, counter: nat)
    requires Means(w, seen) && counter + 1 <= w.counter && counter + 1 < U64 && Distance(w, counter + 1) < U32
    ensures Correct(w, seen, counter)
  {
    var n := counter + 1;
    AllBits(w.bitmap, w.counter - n);
    hide Bit, Or, Low, Shl;
    assert n % U64 == n && (w.counter - n) % U32 == w.counter - n;
  }

  /** Where the truncated distance does no harm: it is not truncated, or too large for the
      window even so, or it meets an empty part of the window (ahead) or a bit that is already
      set (behind). */
  predicate Harmless(w: Window, n: nat) {
    var dist := Distance(w, n);
    var diff := dist % U32;
    || dist < U32
    || diff >= WINDOW
    || (n > w.counter && forall d :: 0 <= d < WINDOW && Bit(w.bitmap, d) ==> d + diff >= WINDOW || d + diff == 0)
    || (n <= w.counter && Bit(w.bitmap, diff))
  }

  /** For any distance: the call is correct exactly when the truncation is harmless. */
  lemma CheckExact(w: Window, seen: set<nat>, counter: nat)
    requires Means(w, seen) && counter + 1 < U64
    ensures Correct(w, seen, counter) <==> Harmless(w, counter + 1)
  {
    var n := counter + 1;
    var diff := Distance(w, n) % U32;
    if Distance(w, n) < U32 {
      CheckRefines(w, seen, counter);
    } else {
      AllBits(w.bitmap, diff);
      hide Bit, Or, Low, Shl;
      assert n % U64 == n;
      if n > w.counter && diff < WINDOW {
        var (w', ok) := Check(w, counter);
        if !Harmless(w, n) {
          var d :| 0 <= d < WINDOW && Bit(w.bitmap, d) && !(d + diff >= WINDOW || d + diff == 0);
          assert Bit(w'.bitmap, d + diff);
          assert n - (d + diff) !in seen + {n};
        }
      }
    }
  }

  // ---------------------------------------------------------------- runs

  /** The window after the first `n` of the counters `cs`. */
  function After(cs: seq<nat>, n: nat): Window
    requires n <= |cs|
  {
    if n == 0 then EMPTY else Check(After(cs, n - 1), cs[n - 1]).0
  }

  predicate Accepted(cs: seq<nat>, i: nat)
    requires i < |cs|
  {
    Check(After(cs, i), cs[i]).1
  }

  /** The numbers accepted among the first `n`. */
  ghost function Seen(cs: seq<nat>, n: nat): set<nat>
    requires n <= |cs|
  {
    if n == 0 then {} else Seen(cs, n - 1) + if Accepted(cs, n - 1) then {cs[n - 1] + 1} else {}
  }

  /** Every counter is a 64-bit number; all but the all-ones counter are less than 2^32 away
      from the head when they arrive. */
  ghost predicate Near(cs: seq<nat>) {
    forall i :: 0 <= i < |cs| ==> cs[i] + 1 == U64 || (cs[i] + 1 < U64 && Distance(After(cs, i), cs[i] + 1) < U32)
  }

  lemma {:induction false} RunRefines(cs: seq<nat>, n: nat)
    requires Near(cs) && n <= |cs|
    ensures Means(After(cs, n), Seen(cs, n))
  {
    hide Check, Means, Correct;
    if n == 0 {
      MeansNothing();
    } else {
      RunRefines(cs, n - 1);
      var w, seen, c := After(cs, n - 1), Seen(cs, n - 1), cs[n - 1];
      if c + 1 != U64 {
        CheckRefines(w, seen, c);
        CorrectMeans(w, seen, c);
      } else {
        AllOnes(w, c);
      }
      assert seen + {} == seen;
    }
  }

  lemma MeansNothing()
    ensures Means(EMPTY, {})
  {
    forall d: nat ensures !Bit(0, d) { BitZero(d); }
    hide Bit;
  }

  lemma CorrectMeans(w: Window, seen: set<nat>, counter: nat)
    requires Correct(w, seen, counter)
    ensures Means(Check(w, counter).0, if Check(w, counter).1 then seen + {counter + 1} else seen)
    ensures Check(w, counter).1 <==> Fresh(seen, w.counter, counter + 1)
  {
    hide Check, Means;
  }

  lemma AllOnes(w: Window, counter: nat)
    requires counter + 1 == U64
    ensures Check(w, counter) == (w, false)
  {
  }

  /** Packet `i` is accepted exactly if its counter is not all ones, was not accepted before,
      and is above the highest accepted one or less than 32 below it. */
  lemma AcceptedWhen(cs: seq<nat>, i: nat)
    requires Near(cs) && i < |cs|
    ensures Accepted(cs, i) <==> cs[i] + 1 != U64 && Fresh(Seen(cs, i), After(cs, i).counter, cs[i] + 1)
    ensures forall n :: n in Seen(cs, i) ==> n <= After(cs, i).counter
    ensures After(cs, i).counter != 0 ==> After(cs, i).counter in Seen(cs, i)
  {
    hide Check, Correct, After, Seen, Bit;
    RunRefines(cs, i);
    if cs[i] + 1 != U64 {
      CheckRefines(After(cs, i), Seen(cs, i), cs[i]);
      CorrectMeans(After(cs, i), Seen(cs, i), cs[i]);
    } else {
      AllOnes(After(cs, i), cs[i]);
    }
  }

  lemma {:induction false} SeenStays(cs: seq<nat>, i: nat, j: nat)
    requires i < j <= |cs| && Accepted(cs, i)
    ensures cs[i] + 1 in Seen(cs, j)
    decreases j
  {
    if i + 1 < j {
      SeenStays(cs, i, j - 1);
    }
  }

  /** No counter is accepted twice. */
  lemma NoneTwice(cs: seq<nat>, i: nat, j: nat)
    requires Near(cs) && i < j < |cs| && Accepted(cs, i) && Accepted(cs, j)
    ensures cs[i] != cs[j]
  {
    hide Check, After, Seen;
    SeenStays(cs, i, j);
    AcceptedWhen(cs, j);
  }

  /** Without the bound on the distance that is false: the counter 0 is accepted twice. */
  lemma TruncationReplay()
    ensures var cs := [0, 0x7fff_ffff, 0x1_0000_0005, 0];
      Accepted(cs, 0) && Accepted(cs, 3) && cs[0] == cs[3] && !Near(cs)
  {
    var cs := [0, 0x7fff_ffff, 0x1_0000_0005, 0];
    AfterNext(cs, 0);
    AfterNext(cs, 1);
    AfterNext(cs, 2);
    Jumps();
    hide Check, After;
    assert Distance(After(cs, 3), cs[3] + 1) >= U32;
  }

  lemma AfterNext(cs: seq<nat>, n: nat)
    requires n < |cs|
    ensures After(cs, 0) == EMPTY && After(cs, n + 1) == Check(After(cs, n), cs[n]).0
  {
    hide Check;
  }

  lemma Jumps()
    ensures Check(EMPTY, 0) == (Window(1, 1), true)
    ensures Check(Window(1, 1), 0x7fff_ffff) == (Window(0x8000_0000, 1), true)
    ensures Check(Window(0x8000_0000, 1), 0x1_0000_0005) == (Window(0x1_0000_0006, 1), true)
    ensures Check(Window(0x1_0000_0006, 1), 0).1
  {
    FirstJump();
    LastJump();
    hide Low, Shl, Or, Bit;
  }

  lemma FirstJump()
    ensures Check(EMPTY, 0) == (Window(1, 1), true)
  {
    LowZero();
    assert Or(0, 1) == 1 + 2 * Or(0, 0) == 1;
    hide Low, Shl, Or, Bit;
  }

  lemma LastJump()
    ensures Check(Window(0x1_0000_0006, 1), 0).1
  {
    BitOne(5);
    hide Low, Shl, Or, Bit;
  }

  lemma LowZero()
    ensures Low(Shl(0, 1), WINDOW) == 0
  {
    ShlZero(1);
    ShlMono(0, 1, WINDOW);
    LowSmall(0, WINDOW);
  }
}

/** The sliding window of lib/libgz/inflate.c (`updatewindow`, the MATCH state) and the
    segmented match copy of lib/libgz/inffast.c. `hist` is everything output before the
    current call; the output buffer holds what the current call has written. */
module Window {

  /** Index in the circular window of the byte `d` back from `wnext`. */
  function WIndex(wsize: nat, wnext: nat, d: nat): int {
    if d <= wnext then wnext - d else wsize + wnext - d
  }

  /** The window holds the last `whave` bytes of `hist`, ending before `wnext`. */
  ghost predicate Holds(w: seq<nat>, wnext: nat, whave: nat, hist: seq<nat>) {
    && 0 < |w| && wnext < |w|
    && whave == (if |hist| < |w| then |hist| else |w|)
    && (whave < |w| ==> wnext == whave)
    && forall d :: 1 <= d <= whave ==> w[WIndex(|w|, wnext, d)] == hist[|hist| - d]
  }

  /** `zmemcpy`. */
  method Memcpy(dst: array<nat>, at: nat, src: seq<nat>, from: nat, n: nat)
    requires at + n <= dst.Length && from + n <= |src|
    modifies dst
    ensures forall i :: 0 <= i < dst.Length ==>
              dst[i] == if at <= i < at + n then src[from + i - at] else old(dst[i])
  {
    for k := 0 to n
      invariant forall i :: 0 <= i < dst.Length ==>
        dst[i] == if at <= i < at + k then src[from + i - at] else old(dst[i])
    {
      dst[at + k] := src[from + k];
    }
  }

  /** `v` is `w` with `data` written from `wnext` on, wrapping at the end. */
  ghost predicate Appended(w: seq<nat>, v: seq<nat>, wnext: nat, data: seq<nat>) {
    && |v| == |w| && wnext < |w| && |data| < |w|
    && (forall i :: wnext <= i < |w| && i < wnext + |data| ==> v[i] == data[i - wnext])
    && (forall i :: 0 <= i && i + |w| < wnext + |data| ==> v[i] == data[i + |w| - wnext])
    && (forall i :: 0 <= i < |w| && !(wnext <= i < wnext + |data|) && !(i + |w| < wnext + |data|) ==> v[i] == w[i])
  }

  /** Appending by one wrap-around keeps the window the end of the history. */
  lemma AppendHolds(w: seq<nat>, v: seq<nat>, wnext: nat, whave: nat, data: seq<nat>, hist: seq<nat>)
    requires Holds(w, wnext, whave, hist) && Appended(w, v, wnext, data)
    ensures var n := wnext + |data|;
      Holds(v, if n < |w| then n else n - |w|, if whave + |data| < |w| then whave + |data| else |w|, hist + data)
  {
    var n := wnext + |data|;
    var wnext' := if n < |w| then n else n - |w|;
    var whave' := if whave + |data| < |w| then whave + |data| else |w|;
    var hist' := hist + data;
    forall d | 1 <= d <= whave'
      ensures v[WIndex(|w|, wnext', d)] == hist'[|hist'| - d]
    {
      var i := WIndex(|w|, wnext', d);
      if d <= |data| {
        assert hist'[|hist'| - d] == data[|data| - d];
      } else {
        var e := d - |data|;
        assert hist'[|hist'| - d] == hist[|hist| - e];
        assert i == WIndex(|w|, wnext, e);
        assert w[WIndex(|w|, wnext, e)] == hist[|hist| - e];
      }
    }
  }

  lemma ReplaceHolds(v: seq<nat>, data: seq<nat>, hist: seq<nat>)
    requires 0 < |v| <= |data| && v == data[|data| - |v|..]
    ensures Holds(v, 0, |v|, hist + data)
  {
  }

  /** `updatewindow`: append the bytes `data` written by one call. */
  method UpdateWindow(w: array<nat>, wnext0: nat, whave0: nat, data: seq<nat>, ghost hist: seq<nat>)
    returns (wnext: nat, whave: nat)
    requires Holds(w[..], wnext0, whave0, hist)
    modifies w
    ensures Holds(w[..], wnext, whave, hist + data)
  {
    wnext, whave := wnext0, whave0;
    ghost var was: seq<nat> := w[..];
    var wsize := w.Length;
    var copy := |data|;
    if copy >= wsize {
      Memcpy(w, 0, data, |data| - wsize, wsize);
      wnext, whave := 0, wsize;
      assert w[..] == data[|data| - wsize..];
      ReplaceHolds(w[..], data, hist);
    } else {
      var dist := wsize - wnext;
      if dist > copy {
        dist := copy;
      }
      Memcpy(w, wnext, data, |data| - copy, dist);
      copy := copy - dist;
      if copy != 0 {
        Memcpy(w, 0, data, |data| - copy, copy);
        assert Appended(was, w[..], wnext, data);
        wnext, whave := copy, wsize;
      } else {
        assert Appended(was, w[..], wnext, data);
        wnext := wnext + dist;
        if wnext == wsize {
          wnext := 0;
        }
        if whave < wsize {
          whave := whave + dist;
        }
      }
      hide Holds, Appended;
      AppendHolds(was, w[..], wnext0, whave0, data, hist);
    }
  }

  // ---------------------------------------------------------------- match copies

  /** `h` followed by `n` bytes, each equal to the byte `dist` before it. */
  ghost function Matched(h: seq<nat>, dist: nat, n: nat): (r: seq<nat>)
    requires 1 <= dist <= |h|
    ensures |r| == |h| + n && h <= r
  {
    if n == 0 then h
    else var g := Matched(h, dist, n - 1); g + [g[|g| - dist]]
  }

  lemma {:induction false} MatchedMore(h: seq<nat>, dist: nat, m: nat, n: nat)
    requires 1 <= dist <= |h|
    ensures Matched(Matched(h, dist, m), dist, n) == Matched(h, dist, m + n)
  {
    if n != 0 {
      MatchedMore(h, dist, m, n - 1);
    }
  }

  /** Where a copy reads: a run of the window, or the output itself `dist` behind. From
      there the next `n` bytes are those `dist` back in the history. */
  ghost predicate Source(w: seq<nat>, hist: seq<nat>, put: nat, dist: nat, window: bool, from: nat, n: nat) {
    if window then
      && put + n <= dist <= |hist| + put && from + n <= |w|
      && forall j :: from <= j < from + n ==> w[j] == hist[|hist| + put - dist + j - from]
    else from + dist == put
  }

  /** `*put++ = *from++`. */
  method CopyByte(out: array<nat>, put: nat, w: array<nat>, window: bool, from: nat, dist: nat, ghost n: nat,
                  ghost hist: seq<nat>)
    requires out != w && put < out.Length && 1 <= dist <= |hist| + put
    requires Source(w[..], hist, put, dist, window, from, n) && 1 <= n
    modifies out
    ensures hist + out[..put + 1] == Matched(hist + old(out[..put]), dist, 1)
    ensures Source(w[..], hist, put + 1, dist, window, from + 1, n - 1)
  {
    var b := if window then w[from] else out[from];
    ghost var h := hist + out[..put];
    assert b == h[|h| - dist] by {
      if window { assert w[..][from] == w[from]; }
    }
    out[put] := b;
    assert Matched(h, dist, 0) == h;
    assert hist + out[..put + 1] == h + [b];
  }

  /** `do *put++ = *from++; while (--n)`: exactly the bytes `dist` back. */
  method CopyRun(out: array<nat>, put: nat, w: array<nat>, window: bool, from: nat, dist: nat, n: nat,
                 ghost hist: seq<nat>)
    requires out != w && put + n <= out.Length && 1 <= dist <= |hist| + put
    requires Source(w[..], hist, put, dist, window, from, n)
    modifies out
    ensures hist + out[..put + n] == Matched(hist + old(out[..put]), dist, n)
  {
    hide Source, Matched;
    ghost var h: seq<nat> := hist + out[..put];
    MatchedNone(h, dist);
    for k := 0 to n
      invariant hist + out[..put + k] == Matched(h, dist, k)
      invariant Source(w[..], hist, put + k, dist, window, from + k, n - k)
    {
      CopyByte(out, put + k, w, window, from + k, dist, n - k, hist);
      MatchedMore(h, dist, k, 1);
    }
  }

  lemma MatchedNone(h: seq<nat>, dist: nat)
    requires 1 <= dist <= |h|
    ensures Matched(h, dist, 0) == h
  {
  }

  /** The same three bytes a turn, as `inflate_fast` does. */
  method CopyThrees(out: array<nat>, put0: nat, w: array<nat>, window: bool, from0: nat, dist: nat, n: nat,
                    ghost hist: seq<nat>)
    requires out != w && put0 + n <= out.Length && 1 <= dist <= |hist| + put0
    requires Source(w[..], hist, put0, dist, window, from0, n)
    modifies out
    ensures hist + out[..put0 + n] == Matched(hist + old(out[..put0]), dist, n)
  {
    hide Source, Matched;
    var len, from, put := n, from0, put0;
    ghost var h: seq<nat> := hist + out[..put];
    MatchedNone(h, dist);
    while len > 2
      invariant 0 <= len <= n && put == put0 + n - len && from == from0 + n - len
      invariant hist + out[..put] == Matched(h, dist, n - len)
      invariant Source(w[..], hist, put, dist, window, from, len)
    {
      CopyNext(out, put, w, window, from, dist, len, n - len, h, hist);
      CopyNext(out, put + 1, w, window, from + 1, dist, len - 1, n - len + 1, h, hist);
      CopyNext(out, put + 2, w, window, from + 2, dist, len - 2, n - len + 2, h, hist);
      put, from, len := put + 3, from + 3, len - 3;
    }
    if len != 0 {
      CopyNext(out, put, w, window, from, dist, len, n - len, h, hist);
      if len > 1 {
        CopyNext(out, put + 1, w, window, from + 1, dist, len - 1, n - len + 1, h, hist);
      }
    }
  }

  /** The next byte of a copy of which `k` bytes are done. */
  method CopyNext(out: array<nat>, put: nat, w: array<nat>, window: bool, from: nat, dist: nat, ghost n: nat,
                  ghost k: nat,
                  ghost h: seq<nat>, ghost hist: seq<nat>)
    requires out != w && put < out.Length && 1 <= dist <= |h| && 1 <= n
    requires Source(w[..], hist, put, dist, window, from, n) && hist + out[..put] == Matched(h, dist, k)
    modifies out
    ensures hist + out[..put + 1] == Matched(h, dist, k + 1)
    ensures Source(w[..], hist, put + 1, dist, window, from + 1, n - 1)
  {
    hide Source, Matched;
    CopyByte(out, put, w, window, from, dist, n, hist);
    MatchedMore(h, dist, k, 1);
  }

  /** A run of the window that ends at its end or at `wnext`, starting `op` back. */
  lemma WindowRun(w: seq<nat>, wnext: nat, whave: nat, hist: seq<nat>, put: nat, dist: nat, n: nat)
    requires Holds(w, wnext, whave, hist) && put < dist <= put + whave
    requires var op := dist - put; if op <= wnext then n <= op else n + wnext <= op
    ensures 0 <= WIndex(|w|, wnext, dist - put)
    ensures Source(w, hist, put, dist, true, WIndex(|w|, wnext, dist - put), n)
  {
    var from := WIndex(|w|, wnext, dist - put);
    forall j | from <= j < from + n
      ensures w[j] == hist[|hist| + put - dist + j - from]
    {
      var d := dist - put - (j - from);
      assert w[WIndex(|w|, wnext, d)] == hist[|hist| - d];
    }
  }

  /** A distance is beyond all history exactly when it is beyond window and output. */
  lemma TooFar(w: seq<nat>, wnext: nat, whave: nat, hist: seq<nat>, put: nat, dist: nat)
    requires Holds(w, wnext, whave, hist) && put < dist <= |w|
    ensures dist - put > whave <==> dist > |hist| + put
  {
  }

  /** The MATCH state: as many bytes of the match as one source run and the room allow. */
  method MatchStep(out: array<nat>, put: nat, w: array<nat>, wnext: nat, whave: nat, dist: nat, length: nat,
                   ghost hist: seq<nat>)
    returns (copy: nat)
    requires out != w && Holds(w[..], wnext, whave, hist) && 1 <= dist <= w.Length && 1 <= length && put < out.Length
    modifies out
    ensures copy <= length && put + copy <= out.Length
    ensures copy == 0 <==> dist > |hist| + put
    ensures dist <= |hist| + put ==> hist + out[..put + copy] == Matched(hist + old(out[..put]), dist, copy)
    ensures out[..put] == old(out[..put])
  {
    hide Holds, Source, Matched;
    var window, from;
    copy, window, from := MatchSource(out.Length - put, put, w, wnext, whave, dist, length, hist);
    if copy != 0 {
      CopyRun(out, put, w, window, from, dist, copy, hist);
      KeepsPrefix(hist, old(out[..put]), out[..put + copy], dist, copy);
      assert out[..put] == out[..put + copy][..put];
    }
  }

  /** Where the MATCH state reads from, and how far: the window up to its end or to `wnext`,
      or the output. Nothing when the distance reaches too far back. */
  method MatchSource(left: nat, put: nat, w: array<nat>, wnext: nat, whave: nat, dist: nat, length: nat,
                     ghost hist: seq<nat>)
    returns (copy: nat, window: bool, from: nat)
    requires Holds(w[..], wnext, whave, hist) && 1 <= dist <= w.Length && 1 <= length && 1 <= left
    ensures copy <= length && copy <= left && (copy == 0 <==> dist > |hist| + put)
    ensures copy != 0 ==> Source(w[..], hist, put, dist, window, from, copy)
  {
    HoldsBounds(w[..], wnext, whave, hist);
    hide Holds, Source;
    window := false;
    copy := put;
    if dist > copy {
      copy := dist - copy;
      TooFar(w[..], wnext, whave, hist, put, dist);
      if copy > whave {
        return 0, false, 0;
      }
      if copy > wnext {
        copy := copy - wnext;
        from := w.Length - copy;
      } else {
        from := wnext - copy;
      }
      window := true;
      if copy > length {
        copy := length;
      }
    } else {
      from := put - dist;
      copy := length;
    }
    if copy > left {
      copy := left;
    }
    if window {
      WindowRun(w[..], wnext, whave, hist, put, dist, copy);
    } else {
      OutputSource(w[..], hist, put, dist, copy);
    }
  }

  lemma KeepsPrefix(hist: seq<nat>, a: seq<nat>, b: seq<nat>, dist: nat, n: nat)
    requires 1 <= dist <= |hist + a| && hist + b == Matched(hist + a, dist, n)
    ensures a <= b
  {
    assert |b| == |a| + n;
    assert forall i :: 0 <= i < |a| ==> (hist + a)[|hist| + i] == a[i] && (hist + b)[|hist| + i] == b[i];
  }

  /** The copy in `inflate_fast`: from the window, wrapped or not, as far as it reaches; the
      rest from the output. */
  method FastCopy(out: array<nat>, put0: nat, w: array<nat>, wnext: nat, whave: nat, dist: nat, length: nat,
                  ghost hist: seq<nat>)
    returns (ok: bool)
    requires out != w && Holds(w[..], wnext, whave, hist) && 1 <= dist <= w.Length && put0 + length <= out.Length
    modifies out
    ensures ok <==> dist <= |hist| + put0
    ensures ok ==> hist + out[..put0 + length] == Matched(hist + old(out[..put0]), dist, length)
    ensures out[..put0] == old(out[..put0])
  {
    hide Holds, Source, Matched;
    var op := put0;
    ghost var was: seq<nat> := out[..put0];
    if dist > op {
      op := dist - op;
      TooFar(w[..], wnext, whave, hist, put0, dist);
      if op > whave {
        return false;
      }
      FastWindow(out, put0, w, wnext, whave, dist, length, hist);
    } else {
      OutputSource(w[..], hist, put0, dist, length);
      CopyThrees(out, put0, w, false, put0 - dist, dist, length, hist);
    }
    KeepsPrefix(hist, was, out[..put0 + length], dist, length);
    assert out[..put0] == out[..put0 + length][..put0];
    ok := true;
  }

  lemma OutputSource(w: seq<nat>, hist: seq<nat>, put: nat, dist: nat, n: nat)
    requires dist <= put
    ensures Source(w, hist, put, dist, false, put - dist, n)
  {
  }

  lemma HoldsBounds(w: seq<nat>, wnext: nat, whave: nat, hist: seq<nat>)
    requires Holds(w, wnext, whave, hist)
    ensures whave <= |w| && wnext < |w| && whave <= |hist| && (whave < |w| ==> wnext == whave)
  {
  }

  /** From output index `put0` on, the match `dist` back in `h` is copied as far as `put`. */
  ghost predicate Copied(hist: seq<nat>, out: seq<nat>, put0: nat, put: nat, h: seq<nat>, dist: nat) {
    && put0 <= put <= |out| && 1 <= dist <= |h| == |hist| + put0
    && hist + out[..put] == Matched(h, dist, put - put0)
  }

  /** One piece of the copy from the window. */
  method WindowPiece(out: array<nat>, put: nat, w: array<nat>, wnext: nat, whave: nat, from: nat, dist: nat, n: nat,
                     ghost put0: nat, ghost h: seq<nat>, ghost hist: seq<nat>)
    requires out != w && Holds(w[..], wnext, whave, hist) && Copied(hist, out[..], put0, put, h, dist)
    requires put + n <= out.Length && put < dist <= put + whave && from == WIndex(w.Length, wnext, dist - put)
    requires if dist - put <= wnext then put + n <= dist else put + n + wnext <= dist
    modifies out
    ensures Copied(hist, out[..], put0, put + n, h, dist)
  {
    hide Holds, Source, Matched, WIndex;
    assert out[..][..put] == out[..put];
    WindowRun(w[..], wnext, whave, hist, put, dist, n);
    CopyRun(out, put, w, true, from, dist, n, hist);
    MatchedMore(h, dist, put - put0, n);
    assert out[..][..put + n] == out[..put + n];
  }

  /** What is left of the copy: `len` bytes to `put`, all readable from `from` on. */
  ghost predicate Remaining(w: seq<nat>, wnext: nat, whave: nat, put: nat, len: nat, window: bool, from: nat,
                            dist: nat) {
    if window then
      && put < dist <= put + whave && from == WIndex(|w|, wnext, dist - put)
      && if dist - put <= wnext then put + len <= dist else put + len + wnext <= dist
    else from + dist == put
  }

  /** The last piece, from the window or from the output. */
  method LastPiece(out: array<nat>, put: nat, w: array<nat>, wnext: nat, whave: nat, window: bool, from: nat,
                   dist: nat, n: nat,
                   ghost put0: nat, ghost h: seq<nat>, ghost hist: seq<nat>)
    requires out != w && Holds(w[..], wnext, whave, hist) && Copied(hist, out[..], put0, put, h, dist)
    requires put + n <= out.Length && Remaining(w[..], wnext, whave, put, n, window, from, dist)
    modifies out
    ensures Copied(hist, out[..], put0, put + n, h, dist)
  {
    hide Holds, Source, Matched, WIndex;
    assert out[..][..put] == out[..put];
    if window {
      WindowRun(w[..], wnext, whave, hist, put, dist, n);
    } else {
      OutputSource(w[..], hist, put, dist, n);
    }
    CopyThrees(out, put, w, window, from, dist, n, hist);
    MatchedMore(h, dist, put - put0, n);
    assert out[..][..put + n] == out[..put + n];
  }

  /** A match that starts in one run of the window. */
  method OneRun(out: array<nat>, put0: nat, w: array<nat>, wnext: nat, whave: nat, from0: nat, op: nat, dist: nat,
                length: nat,
                ghost h: seq<nat>, ghost hist: seq<nat>)
    returns (put: nat, len: nat, window: bool, from: nat)
    requires out != w && Holds(w[..], wnext, whave, hist) && Copied(hist, out[..], put0, put0, h, dist)
    requires put0 + length <= out.Length && put0 + op == dist && 1 <= op <= whave
    requires from0 == WIndex(w.Length, wnext, op)
    requires op <= wnext || wnext == 0
    modifies out
    ensures Copied(hist, out[..], put0, put, h, dist) && put + len == put0 + length
    ensures Remaining(w[..], wnext, whave, put, len, window, from, dist)
  {
    hide Holds, Source, Matched, Copied, WIndex;
    put, len, window, from := put0, length, true, from0;
    if op < len {
      WindowPiece(out, put, w, wnext, whave, from, dist, op, put0, h, hist);
      len, put := len - op, put + op;
      window, from := false, put - dist;
    }
  }

  /** A match that starts at the end of the window and may go on at its start. */
  method TwoRuns(out: array<nat>, put0: nat, w: array<nat>, wnext: nat, whave: nat, from0: nat, op0: nat, dist: nat,
                 length: nat,
                 ghost h: seq<nat>, ghost hist: seq<nat>)
    returns (put: nat, len: nat, window: bool, from: nat)
    requires out != w && Holds(w[..], wnext, whave, hist) && Copied(hist, out[..], put0, put0, h, dist)
    requires put0 + length <= out.Length && put0 + op0 == dist && wnext < op0 <= whave
    requires from0 == WIndex(w.Length, wnext, op0)
    requires 0 < wnext
    modifies out
    ensures Copied(hist, out[..], put0, put, h, dist) && put + len == put0 + length
    ensures Remaining(w[..], wnext, whave, put, len, window, from, dist)
  {
    hide Holds, Source, Matched, Copied;
    put, len, window, from := put0, length, true, from0;
    var op := op0 - wnext;
    if op < len {
      WindowPiece(out, put, w, wnext, whave, from, dist, op, put0, h, hist);
      len, put := len - op, put + op;
      from := 0;
      if wnext < len {
        op := wnext;
        WindowPiece(out, put, w, wnext, whave, from, dist, op, put0, h, hist);
        len, put := len - op, put + op;
        window, from := false, put - dist;
      }
    }
  }

  method FastWindow(out: array<nat>, put0: nat, w: array<nat>, wnext: nat, whave: nat, dist: nat, length: nat,
                    ghost hist: seq<nat>)
    requires out != w && Holds(w[..], wnext, whave, hist) && put0 + length <= out.Length && put0 < dist <= put0 + whave
    modifies out
    ensures dist <= |hist| + put0 && hist + out[..put0 + length] == Matched(hist + old(out[..put0]), dist, length)
  {
    HoldsBounds(w[..], wnext, whave, hist);
    var put, len, window, from;
    var op := dist - put0;
    ghost var h: seq<nat> := hist + out[..put0];
    MatchedNone(h, dist);
    assert out[..][..put0] == out[..put0];
    assert Copied(hist, out[..], put0, put0, h, dist);
    hide Holds, Source, Matched, Copied, Remaining;
    if wnext == 0 {
      put, len, window, from := OneRun(out, put0, w, wnext, whave, w.Length - op, op, dist, length, h, hist);
    } else if wnext < op {
      put, len, window, from := TwoRuns(out, put0, w, wnext, whave, w.Length + wnext - op, op, dist, length, h, hist);
    } else {
      put, len, window, from := OneRun(out, put0, w, wnext, whave, wnext - op, op, dist, length, h, hist);
    }
    LastPiece(out, put, w, wnext, whave, window, from, dist, len, put0, h, hist);
    CopiedMeans(hist, out[..], put0, put0 + length, h, dist);
    assert out[..][..put0 + length] == out[..put0 + length];
  }

  lemma CopiedMeans(hist: seq<nat>, out: seq<nat>, put0: nat, put: nat, h: seq<nat>, dist: nat)
    requires Copied(hist, out, put0, put, h, dist)
    ensures put0 <= put <= |out| && 1 <= dist <= |h| && hist + out[..put] == Matched(h, dist, put - put0)
  {
  }
}

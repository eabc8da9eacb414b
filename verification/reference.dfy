/** A one-shot reference decoder for raw deflate streams (RFC 1951), working on the plain
    sequence of bits and the full output history: no accumulator, no tables, no window, no
    buffers. One `Step` per decision of the format. */
module Reference {
  import opened Bits
  import opened Canonical
  import opened BitIO
  import opened InflateTable
  import opened Symbols

  datatype Mode =
    | Type
    | Stored
    | Copy(left: nat)
    | Table
    | LenLens(nlen: nat, ndist: nat, ncode: nat, got: seq<nat>)
    | CodeLens(nlen: nat, ndist: nat, cl: seq<nat>, lens: seq<nat>)
    | Len
    | Lit(byte: nat)
    | LenExt(length: nat, extra: nat)
    | Dist(length: nat)
    | DistExt(length: nat, dist: nat, extra: nat)
    | Match(length: nat, dist: nat)
    | Done
    | Bad

  /** Decoder state: what comes next, whether this is the last block, the two codes of the
      block, and everything output so far. */
  datatype State = State(mode: Mode, last: bool, ll: seq<nat>, dl: seq<nat>, out: seq<nat>)

  datatype Outcome = Stuck | Next(state: State, used: nat)

  const INIT: State := State(Type, false, [], [], [])

  /** Order in which the code length code is sent. */
  const ORDER: seq<nat> := [16, 17, 18, 0, 8, 7, 9, 6, 10, 5, 11, 4, 12, 3, 13, 2, 14, 1, 15]

  function Zeros(n: nat): (z: seq<nat>)
    ensures |z| == n && forall i :: 0 <= i < n ==> z[i] == 0
  {
    seq(n, _ => 0)
  }

  /** The 19 lengths of the code length code, from those sent. */
  function LengthsSent(got: seq<nat>): (r: seq<nat>)
    requires |got| <= 19
    ensures |r| == 19
  {
    if |got| == 0 then Zeros(19)
    else LengthsSent(got[..|got| - 1])[ORDER[|got| - 1] := got[|got| - 1]]
  }

  function Repeat(v: nat, n: nat): (r: seq<nat>)
    ensures |r| == n && forall i :: 0 <= i < n ==> r[i] == v
  {
    seq(n, _ => v)
  }

  const FIXED_LL: seq<nat> := Repeat(8, 144) + Repeat(9, 112) + Repeat(7, 24) + Repeat(8, 8)
  const FIXED_DL: seq<nat> := Repeat(5, 32)

  /** The `n` bits at `at` as a number. */
  ghost function Val(rest: seq<bool>, at: nat, n: nat): nat
    requires at + n <= |rest|
  {
    ValueOf(rest[at..at + n])
  }

  ghost function Fail(s: State, used: nat): Outcome {
    Next(s.(mode := Bad), used)
  }

  /** Block header. After the last block the rest of the byte is skipped. */
  ghost function StepType(s: State, rest: seq<bool>): Outcome {
    if s.last then Next(s.(mode := Done), |rest| % 8)
    else if |rest| < 3 then Stuck
    else
      var s' := s.(last := rest[0]);
      var ty := Val(rest, 1, 2);
      if ty == 0 then Next(s'.(mode := Stored), 3)
      else if ty == 1 then Next(s'.(mode := Len, ll := FIXED_LL, dl := FIXED_DL), 3)
      else if ty == 2 then Next(s'.(mode := Table), 3)
      else Fail(s', 3)
  }

  /** Stored block: skip to a byte boundary, then a length and its complement. */
  ghost function StepStored(s: State, rest: seq<bool>): Outcome {
    if |rest| % 8 != 0 then Next(s, |rest| % 8)
    else if |rest| < 32 then Stuck
    else if Val(rest, 0, 16) + Val(rest, 16, 16) != 65535 then Fail(s, 0)
    else Next(s.(mode := Copy(Val(rest, 0, 16))), 32)
  }

  ghost function StepCopy(s: State, rest: seq<bool>): Outcome
    requires s.mode.Copy?
  {
    if s.mode.left == 0 then Next(s.(mode := Type), 0)
    else if |rest| < 8 then Stuck
    else Next(s.(mode := Copy(s.mode.left - 1), out := s.out + [Val(rest, 0, 8)]), 8)
  }

  ghost function StepTable(s: State, rest: seq<bool>): Outcome {
    if |rest| < 14 then Stuck
    else
      var nlen, ndist, ncode := Val(rest, 0, 5) + 257, Val(rest, 5, 5) + 1, Val(rest, 10, 4) + 4;
      if nlen > 286 || ndist > 30 then Fail(s, 14)
      else Next(s.(mode := LenLens(nlen, ndist, ncode, [])), 14)
  }

  ghost function StepLenLens(s: State, rest: seq<bool>): Outcome
    requires s.mode.LenLens?
  {
    var LenLens(nlen, ndist, ncode, got) := s.mode;
    if |got| < ncode then
      if |rest| < 3 then Stuck
      else Next(s.(mode := LenLens(nlen, ndist, ncode, got + [Val(rest, 0, 3)])), 3)
    else if |got| > 19 || !Usable(CODES, LengthsSent(got)) then Fail(s, 0)
    else Next(s.(mode := CodeLens(nlen, ndist, LengthsSent(got), [])), 0)
  }

  /** Append `n` copies of `v`, unless that is more than the two codes hold. */
  ghost function Extend(s: State, v: nat, n: nat, used: nat): Outcome
    requires s.mode.CodeLens?
  {
    var CodeLens(nlen, ndist, cl, lens) := s.mode;
    if |lens| + n > nlen + ndist then Fail(s, used)
    else Next(s.(mode := CodeLens(nlen, ndist, cl, lens + Repeat(v, n))), used)
  }

  /** One symbol of the code length code: a length, or a run. */
  ghost function StepCodeLens(s: State, rest: seq<bool>): Outcome
    requires s.mode.CodeLens?
  {
    var CodeLens(nlen, ndist, cl, lens) := s.mode;
    if |lens| < nlen + ndist then
      var f := SymbolAt(CODES, cl, rest);
      if f.Wait? then Stuck
      else
        // a code without words reads every bit as the length 0
        var v, n := if f.Symbol? then f.sym else 0, FoundBits(cl, f);
        if v < 16 then Extend(s, v, 1, n)
        else if v == 16 then
          if |rest| < n + 2 then Stuck
          else if |lens| == 0 then Fail(s, n)
          else Extend(s, lens[|lens| - 1], 3 + Val(rest, n, 2), n + 2)
        else if v == 17 then
          if |rest| < n + 3 then Stuck else Extend(s, 0, 3 + Val(rest, n, 3), n + 3)
        else
          if |rest| < n + 7 then Stuck else Extend(s, 0, 11 + Val(rest, n, 7), n + 7)
    else if |lens| <= 256 || |lens| < nlen || lens[256] == 0 || !Usable(LENS, lens[..nlen])
      || !Usable(DISTS, lens[nlen..]) then
      Fail(s, 0)
    else Next(s.(mode := Len, ll := lens[..nlen], dl := lens[nlen..]), 0)
  }

  /** One literal/length symbol. */
  ghost function StepLen(s: State, rest: seq<bool>): Outcome {
    match SymbolAt(LENS, s.ll, rest)
    case Wait => Stuck
    case Invalid => Fail(s, 1)
    case Symbol(sym) =>
      var n := FoundBits(s.ll, Symbol(sym));
      if sym < 256 then Next(s.(mode := Lit(sym)), n)
      else if sym == 256 then Next(s.(mode := Type), n)
      else if sym >= 286 then Fail(s, n)
      else Next(s.(mode := LenExt(LBASE[sym - 257], LEXT[sym - 257] % 16)), n)
  }

  ghost function StepLenExt(s: State, rest: seq<bool>): Outcome
    requires s.mode.LenExt?
  {
    if |rest| < s.mode.extra then Stuck
    else Next(s.(mode := Dist(s.mode.length + Val(rest, 0, s.mode.extra))), s.mode.extra)
  }

  /** One distance symbol. */
  ghost function StepDist(s: State, rest: seq<bool>): Outcome
    requires s.mode.Dist?
  {
    match SymbolAt(DISTS, s.dl, rest)
    case Wait => Stuck
    case Invalid => Fail(s, 1)
    case Symbol(sym) =>
      var n := FoundBits(s.dl, Symbol(sym));
      if sym >= 30 then Fail(s, n)
      else Next(s.(mode := DistExt(s.mode.length, DBASE[sym], DEXT[sym] % 16)), n)
  }

  ghost function StepDistExt(s: State, rest: seq<bool>): Outcome
    requires s.mode.DistExt?
  {
    if |rest| < s.mode.extra then Stuck
    else Next(s.(mode := Match(s.mode.length, s.mode.dist + Val(rest, 0, s.mode.extra))), s.mode.extra)
  }

  /** One byte of a match. */
  ghost function StepMatch(s: State): Outcome
    requires s.mode.Match?
  {
    var Match(length, dist) := s.mode;
    if length == 0 then Next(s.(mode := Len), 0)
    else if dist == 0 || dist > |s.out| then Fail(s, 0)
    else Next(s.(mode := if length == 1 then Len else Match(length - 1, dist),
      out := s.out + [s.out[|s.out| - dist]]), 0)
  }

  ghost function Step(s: State, rest: seq<bool>): Outcome {
    match s.mode
    case Type => StepType(s, rest)
    case Stored => StepStored(s, rest)
    case Copy(_) => StepCopy(s, rest)
    case Table => StepTable(s, rest)
    case LenLens(_, _, _, _) => StepLenLens(s, rest)
    case CodeLens(_, _, _, _) => StepCodeLens(s, rest)
    case Len => StepLen(s, rest)
    case Lit(b) => Next(s.(mode := Len, out := s.out + [b]), 0)
    case LenExt(_, _) => StepLenExt(s, rest)
    case Dist(_) => StepDist(s, rest)
    case DistExt(_, _, _) => StepDistExt(s, rest)
    case Match(_, _) => StepMatch(s)
    case Done => Stuck
    case Bad => Stuck
  }

  // ---------------------------------------------------------------- steps and longer streams

  lemma ValExtends(rest: seq<bool>, more: seq<bool>, at: nat, n: nat)
    requires at + n <= |rest|
    ensures Val(rest + more, at, n) == Val(rest, at, n)
  {
    assert (rest + more)[at..at + n] == rest[at..at + n];
  }

  lemma AllVals(rest: seq<bool>, more: seq<bool>)
    ensures forall at: nat, n: nat :: at + n <= |rest| ==> Val(rest + more, at, n) == Val(rest, at, n)
  {
    forall at: nat, n: nat | at + n <= |rest|
      ensures Val(rest + more, at, n) == Val(rest, at, n)
    {
      ValExtends(rest, more, at, n);
    }
  }

  /** A step that can be taken is the same, however many bytes follow. */
  lemma StepMonotone(s: State, rest: seq<bool>, more: seq<bool>)
    requires Step(s, rest) != Stuck && |more| % 8 == 0
    ensures Step(s, rest + more) == Step(s, rest)
    ensures Step(s, rest).used <= |rest|
  {
    hide StepType, StepStored, StepCopy, StepTable, StepLenLens, StepCodeLens, StepLen, StepLenExt, StepDist,
         StepDistExt;
    match s.mode {
      case CodeLens(_, _, _, _) => CodeLensMonotone(s, rest, more);
      case Len => SymbolsMonotone(s, rest, more);
      case Dist(_) => SymbolsMonotone(s, rest, more);
      case Type => TypeMonotone(s, rest, more);
      case Stored => StoredMonotone(s, rest, more);
      case Copy(_) => FieldsMonotone(s, rest, more);
      case Table => TableMonotone(s, rest, more);
      case LenLens(_, _, _, _) => FieldsMonotone(s, rest, more);
      case LenExt(_, _) => FieldsMonotone(s, rest, more);
      case DistExt(_, _, _) => FieldsMonotone(s, rest, more);
      case _ =>
    }
  }

  lemma TypeMonotone(s: State, rest: seq<bool>, more: seq<bool>)
    requires |more| % 8 == 0 && StepType(s, rest) != Stuck
    ensures StepType(s, rest + more) == StepType(s, rest) && StepType(s, rest).used <= |rest|
  {
    hide Val;
    AllVals(rest, more);
  }

  lemma StoredMonotone(s: State, rest: seq<bool>, more: seq<bool>)
    requires |more| % 8 == 0 && StepStored(s, rest) != Stuck
    ensures StepStored(s, rest + more) == StepStored(s, rest) && StepStored(s, rest).used <= |rest|
  {
    hide Val;
    AllVals(rest, more);
  }

  lemma TableMonotone(s: State, rest: seq<bool>, more: seq<bool>)
    requires StepTable(s, rest) != Stuck
    ensures StepTable(s, rest + more) == StepTable(s, rest) && StepTable(s, rest).used <= |rest|
  {
    hide Val;
    AllVals(rest, more);
  }

  lemma FieldsMonotone(s: State, rest: seq<bool>, more: seq<bool>)
    ensures s.mode.Copy? && StepCopy(s, rest) != Stuck ==>
      StepCopy(s, rest + more) == StepCopy(s, rest) && StepCopy(s, rest).used <= |rest|
    ensures s.mode.LenLens? && StepLenLens(s, rest) != Stuck ==>
      StepLenLens(s, rest + more) == StepLenLens(s, rest) && StepLenLens(s, rest).used <= |rest|
    ensures s.mode.LenExt? && StepLenExt(s, rest) != Stuck ==>
      StepLenExt(s, rest + more) == StepLenExt(s, rest) && StepLenExt(s, rest).used <= |rest|
    ensures s.mode.DistExt? && StepDistExt(s, rest) != Stuck ==>
      StepDistExt(s, rest + more) == StepDistExt(s, rest) && StepDistExt(s, rest).used <= |rest|
  {
    hide Val, Usable, LengthsSent;
    AllVals(rest, more);
  }

  lemma CodeLensMonotone(s: State, rest: seq<bool>, more: seq<bool>)
    requires s.mode.CodeLens? && StepCodeLens(s, rest) != Stuck
    ensures StepCodeLens(s, rest + more) == StepCodeLens(s, rest) && StepCodeLens(s, rest).used <= |rest|
  {
    hide Val, SymbolAt, Usable, FoundBits;
    AllVals(rest, more);
    if SymbolAt(CODES, s.mode.cl, rest) != Wait {
      FoundMonotone(CODES, s.mode.cl, rest, more);
    }
  }

  lemma SymbolsMonotone(s: State, rest: seq<bool>, more: seq<bool>)
    ensures StepLen(s, rest) != Stuck ==> StepLen(s, rest + more) == StepLen(s, rest) && StepLen(s, rest).used <= |rest|
    ensures s.mode.Dist? && StepDist(s, rest) != Stuck ==>
      StepDist(s, rest + more) == StepDist(s, rest) && StepDist(s, rest).used <= |rest|
  {
    hide SymbolAt, Usable;
    if SymbolAt(LENS, s.ll, rest) != Wait {
      FoundMonotone(LENS, s.ll, rest, more);
    }
    if SymbolAt(DISTS, s.dl, rest) != Wait {
      FoundMonotone(DISTS, s.dl, rest, more);
    }
    InvalidOne(s.ll);
    InvalidOne(s.dl);
  }

  lemma InvalidOne(lens: seq<nat>)
    ensures FoundBits(lens, Found.Invalid) == 1
  {
  }

  /** Output only grows. */
  lemma StepOutput(s: State, rest: seq<bool>)
    requires Step(s, rest) != Stuck
    ensures s.out <= Step(s, rest).state.out
  {
    hide Val, SymbolAt, LengthsSent, Usable, FoundBits;
  }

  // ---------------------------------------------------------------- runs

  /** After `n` steps on stream `fed` the decoder is in state `s` at bit `pos`. */
  ghost predicate Path(fed: seq<bool>, n: nat, s: State, pos: nat) {
    if n == 0 then s == INIT && pos == 0
    else exists s0: State, p0: nat ::
      Path(fed, n - 1, s0, p0) && p0 <= pos <= |fed| && Step(s0, fed[p0..]) == Next(s, pos - p0)
  }

  ghost predicate Reached(fed: seq<bool>, s: State, pos: nat) {
    exists n: nat :: Path(fed, n, s, pos)
  }

  /** More input does not change what has been decoded. */
  lemma {:induction false} PathExtends(fed: seq<bool>, more: seq<bool>, n: nat, s: State, pos: nat)
    requires Path(fed, n, s, pos) && |more| % 8 == 0
    ensures Path(fed + more, n, s, pos)
  {
    hide Step;
    if n != 0 {
      var s0: State, p0: nat :| Path(fed, n - 1, s0, p0) && p0 <= pos <= |fed|
        && Step(s0, fed[p0..]) == Next(s, pos - p0);
      PathExtends(fed, more, n - 1, s0, p0);
      StepMonotone(s0, fed[p0..], more);
      assert (fed + more)[p0..] == fed[p0..] + more;
    }
  }

  /** The reference decoder is deterministic. */
  lemma {:induction false} PathUnique(fed: seq<bool>, n: nat, s: State, pos: nat, s': State, pos': nat)
    requires Path(fed, n, s, pos) && Path(fed, n, s', pos')
    ensures s == s' && pos == pos'
  {
    hide Step;
    if n != 0 {
      var a: State, p: nat :| Path(fed, n - 1, a, p) && p <= pos <= |fed| && Step(a, fed[p..]) == Next(s, pos - p);
      var b: State, q: nat :| Path(fed, n - 1, b, q) && q <= pos' <= |fed| && Step(b, fed[q..]) == Next(s', pos' - q);
      PathUnique(fed, n - 1, a, p, b, q);
    }
  }

  /** An earlier point of a run, with less output. */
  lemma {:induction false} PathPrefix(fed: seq<bool>, m: nat, n: nat, s: State, pos: nat) returns (s0: State, p0: nat)
    requires Path(fed, n, s, pos) && m <= n
    ensures Path(fed, m, s0, p0) && p0 <= pos && s0.out <= s.out
    ensures m == n ==> s0 == s && p0 == pos
    ensures m < n ==> p0 <= |fed| && Step(s0, fed[p0..]) != Stuck
  {
    hide Step;
    if m == n {
      s0, p0 := s, pos;
    } else {
      var a: State, p: nat :| Path(fed, n - 1, a, p) && p <= pos <= |fed| && Step(a, fed[p..]) == Next(s, pos - p);
      StepOutput(a, fed[p..]);
      s0, p0 := PathPrefix(fed, m, n - 1, a, p);
    }
  }

  /** The decoder has a byte to output. */
  predicate Wants(s: State) {
    match s.mode
    case Lit(_) => true
    case Match(n, _) => n != 0
    case Copy(n) => n != 0
    case _ => false
  }

  /** Nothing more can be done with the input and with room for `room` output bytes in all. */
  ghost predicate Settled(s: State, rest: seq<bool>, room: nat) {
    |s.out| <= room && (Step(s, rest) == Stuck || (|s.out| == room && Wants(s)))
  }

  /** A match that reaches back before the start of the output. */
  predicate BadMatch(s: State) {
    s.mode.Match? && (s.mode.dist == 0 || s.mode.dist > |s.out|)
  }

  lemma WantedStep(s: State, rest: seq<bool>)
    requires Wants(s) && Step(s, rest) != Stuck
    ensures !BadMatch(s) ==> |Step(s, rest).state.out| == |s.out| + 1
    ensures BadMatch(s) ==> Step(s, rest) == Fail(s, 0)
  {
  }

  /** One settled decoding is not a proper part of another. */
  lemma SettledEarlier(fed: seq<bool>, n: nat, s: State, pos: nat, m: nat, s': State, pos': nat, room: nat)
    requires n <= m && Path(fed, n, s, pos) && Path(fed, m, s', pos') && pos <= |fed| && pos' <= |fed|
    requires Settled(s, fed[pos..], room) && Settled(s', fed[pos'..], room)
    ensures s.out == s'.out && pos == pos'
    ensures s == s' || (BadMatch(s) && s' == s.(mode := Bad))
  {
    hide Step;
    var a, p := PathPrefix(fed, n, m, s', pos');
    PathUnique(fed, n, s, pos, a, p);
    if n < m {
      WantedStep(s, fed[pos..]);
      var b, q := PathPrefix(fed, n + 1, m, s', pos');
      var c: State, o: nat :| Path(fed, n, c, o) && o <= q <= |fed| && Step(c, fed[o..]) == Next(b, q - o);
      PathUnique(fed, n, s, pos, c, o);
      BadStuck(b, fed[q..]);
    }
  }

  lemma BadStuck(s: State, rest: seq<bool>)
    ensures s.mode.Bad? ==> Step(s, rest) == Stuck
  {
  }

  /** Decoding depends only on the stream and on the room for output: two decodings of one
      stream that can go no further agree on output and position, and on the whole state
      unless one of them has not yet rejected a match for which it has no room. */
  lemma OneDecoding(fed: seq<bool>, s: State, pos: nat, s': State, pos': nat, room: nat)
    requires Reached(fed, s, pos) && Reached(fed, s', pos') && pos <= |fed| && pos' <= |fed|
    requires Settled(s, fed[pos..], room) && Settled(s', fed[pos'..], room)
    ensures s.out == s'.out && pos == pos'
    ensures || s == s'
            || (BadMatch(s) && s' == s.(mode := Bad))
            || (BadMatch(s') && s == s'.(mode := Bad))
  {
    hide Step, Settled;
    var n: nat :| Path(fed, n, s, pos);
    var m: nat :| Path(fed, m, s', pos');
    if n <= m {
      SettledEarlier(fed, n, s, pos, m, s', pos', room);
    } else {
      SettledEarlier(fed, m, s', pos', n, s, pos, room);
    }
  }

  /** Of any two decodings of one stream, one output is a prefix of the other. */
  lemma OneOutput(fed: seq<bool>, s: State, pos: nat, s': State, pos': nat)
    requires Reached(fed, s, pos) && Reached(fed, s', pos')
    ensures s.out <= s'.out || s'.out <= s.out
  {
    hide Step;
    var n: nat :| Path(fed, n, s, pos);
    var m: nat :| Path(fed, m, s', pos');
    if n <= m {
      var a, p := PathPrefix(fed, n, m, s', pos');
      PathUnique(fed, n, s, pos, a, p);
    } else {
      var a, p := PathPrefix(fed, m, n, s, pos);
      PathUnique(fed, m, s', pos', a, p);
    }
  }

  /** One more step. */
  lemma ReachStep(fed: seq<bool>, s: State, pos: nat, s': State, used: nat)
    requires Reached(fed, s, pos) && pos <= |fed| && Step(s, fed[pos..]) == Next(s', used)
    ensures pos + used <= |fed| && Reached(fed, s', pos + used)
  {
    hide Step;
    StepMonotone(s, fed[pos..], []);
    var n: nat :| Path(fed, n, s, pos);
    assert Path(fed, n + 1, s', pos + used);
  }

  lemma ReachExtends(fed: seq<bool>, more: seq<bool>, s: State, pos: nat)
    requires Reached(fed, s, pos) && |more| % 8 == 0
    ensures Reached(fed + more, s, pos)
  {
    hide Step;
    var n: nat :| Path(fed, n, s, pos);
    PathExtends(fed, more, n, s, pos);
  }

  lemma ReachInit(fed: seq<bool>)
    ensures Reached(fed, INIT, 0)
  {
    assert Path(fed, 0, INIT, 0);
  }

  /** The decoder can be in state `s` with `rest` of the stream `fed` before it. */
  ghost predicate At(fed: seq<bool>, s: State, rest: seq<bool>) {
    |rest| <= |fed| && fed[|fed| - |rest|..] == rest && Reached(fed, s, |fed| - |rest|)
  }

  lemma AtStart(fed: seq<bool>)
    ensures At(fed, INIT, fed)
  {
    ReachInit(fed);
  }

  lemma AtStep(fed: seq<bool>, s: State, rest: seq<bool>, s': State, used: nat)
    requires At(fed, s, rest) && Step(s, rest) == Next(s', used)
    ensures used <= |rest| && At(fed, s', rest[used..])
  {
    hide Step, Reached;
    ReachStep(fed, s, |fed| - |rest|, s', used);
  }

  lemma AtFeed(fed: seq<bool>, s: State, rest: seq<bool>, more: seq<bool>)
    requires At(fed, s, rest) && |more| % 8 == 0
    ensures At(fed + more, s, rest + more)
  {
    hide Reached;
    ReachExtends(fed, more, s, |fed| - |rest|);
    assert (fed + more)[|fed| - |rest|..] == rest + more;
  }

  /** A decoding that has reached the end of the stream is the only one. */
  lemma DoneIsAll(fed: seq<bool>, s: State, rest: seq<bool>, d: State, room: nat)
    requires At(fed, s, rest) && At(fed, d, []) && d.mode.Done? && Settled(s, rest, room) && |d.out| <= room
    ensures s == d && rest == []
  {
    DoneStuck(d, []);
    hide Step, Reached;
    var p := |fed| - |rest|;
    assert fed[|fed|..] == [];
    OneDecoding(fed, s, p, d, |fed|, room);
  }

  /** A decoding that is stuck can do with any room. */
  lemma OtherRoom(s: State, rest: seq<bool>, room: nat, other: nat)
    requires Settled(s, rest, room) && |s.out| <= other && (|s.out| < room || other == |s.out|)
    ensures Settled(s, rest, other)
  {
  }

  /** Two decodings of one stream with any room for each. */
  lemma TwoStates(fed: seq<bool>, s: State, rest: seq<bool>, room: nat, s': State, rest': seq<bool>, room': nat)
    requires At(fed, s, rest) && At(fed, s', rest') && Settled(s, rest, room) && Settled(s', rest', room')
    ensures s.out <= s'.out || s'.out <= s.out
    ensures |s.out| == |s'.out| || (|s.out| < room && |s'.out| < room') ==> s.out == s'.out && rest == rest'
  {
    hide Step, Reached;
    var p, p' := |fed| - |rest|, |fed| - |rest'|;
    OneOutput(fed, s, p, s', p');
    if |s.out| == |s'.out| || (|s.out| < room && |s'.out| < room') {
      var n := if |s.out| < |s'.out| then |s'.out| else |s.out|;
      OtherRoom(s, rest, room, n);
      OtherRoom(s', rest', room', n);
      hide Settled;
      OneDecoding(fed, s, p, s', p', n);
    }
  }

  /** A decoding at the end of the complete stream `fed`, or with `n` bytes of output. */
  ghost predicate Finishes(fed: seq<bool>, s: State, n: nat) {
    forall d :: At(fed, d, []) && d.mode.Done? ==> s == d || n <= |s.out|
  }

  lemma FinishesNone(fed: seq<bool>, s: State)
    ensures Finishes(fed, s, 0)
  {
  }

  /** One more call with room for `k` bytes. */
  lemma FinishesMore(fed: seq<bool>, s: State, s': State, rest: seq<bool>, n: nat, k: nat)
    requires Finishes(fed, s, n) && At(fed, s', rest) && Settled(s', rest, |s.out| + k)
    ensures Finishes(fed, s', n + k)
  {
    hide At;
    forall d | At(fed, d, []) && d.mode.Done?
      ensures s' == d || n + k <= |s'.out|
    {
      var room := |s.out| + k;
      if s == d {
        DoneIsAll(fed, s', rest, d, room);
      } else if |s'.out| < room {
        var other := if |s'.out| < |d.out| then |d.out| else |s'.out|;
        OtherRoom(s', rest, room, other);
        DoneIsAll(fed, s', rest, d, other);
      }
    }
  }

  /** A complete stream of at most `n` bytes of data is decoded to its end. */
  ghost predicate ToTheEnd(fed: seq<bool>, s: State, rest: seq<bool>, n: nat) {
    forall d :: At(fed, d, []) && d.mode.Done? && |d.out| <= n ==> s == d && rest == []
  }

  lemma AllFinished(fed: seq<bool>, s: State, rest: seq<bool>, n: nat, room: nat)
    requires Finishes(fed, s, n) && At(fed, s, rest) && Settled(s, rest, room)
    ensures ToTheEnd(fed, s, rest, n)
  {
    hide At;
    forall d | At(fed, d, []) && d.mode.Done? && |d.out| <= n
      ensures s == d && rest == []
    {
      assert |s.out| <= room;
      DoneIsAll(fed, s, rest, d, room);
    }
  }

  lemma DoneStuck(s: State, rest: seq<bool>)
    ensures s.mode.Done? ==> Step(s, rest) == Stuck
  {
  }
}

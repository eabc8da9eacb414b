/** The resumable decoder `inflate` of lib/libgz/inflate.c for raw deflate data with a 32K
    window, together with `inflate_fast` of lib/libgz/inffast.c. */
module Inflate {
  import opened Bits
  import opened Canonical
  import opened BitIO
  import opened InflateTable
  import opened Symbols
  import opened Window
  import opened Reference
  import opened InflateSteps

  datatype InflateMode =
    | TYPEDO | STORED | COPY | TABLE | LENLENS | CODELENS | LEN | LENEXT | DIST | DISTEXT | MATCH | LIT | DONE | BAD

  const Z_OK: int := 0
  const Z_STREAM_END: int := 1
  const Z_DATA_ERROR: int := -3
  const Z_BUF_ERROR: int := -5

  const WSIZE: nat := 32768
  const LENS_SIZE: nat := 320
  const ENOUGH: nat := ENOUGH_LENS + ENOUGH_DISTS

  /** Steps that consume no input and give no output lead to lower ranks. */
  function ModeRank(m: InflateMode): nat {
    match m
    case BAD | DONE => 0
    case TYPEDO | LEN | DIST | MATCH | LIT | STORED => 1
    case COPY | CODELENS | LENEXT | DISTEXT => 2
    case LENLENS | TABLE => 3
  }

  /** A decoding table that serves the code with lengths `lens`, built by `inflate_table`. */
  method BuildTable(ty: CodeType, lens: seq<nat>, codes: array<Code>, base: nat, bits: nat)
    returns (ret: int, table: seq<Code>, root: nat)
    requires ValidLengths(lens) && |lens| <= SymbolLimit(ty) && 1 <= bits && Space(ty, lens, bits, codes.Length - base)
    modifies codes
    ensures -1 <= ret <= 1 && (ret == -1 <==> !Usable(ty, lens)) && (ret == 1 ==> ty != CODES)
    ensures ret == 1 ==> OutOfSpace(ty, Pow2(bits)) || exists i :: 0 <= i < |lens| && bits < lens[i]
    ensures ret == 0 ==> Serves(table, root, ty, lens) && (ty != CODES ==> |table| < Limit(ty))
    ensures ret == 0 && ty == CODES ==> forall i :: 0 <= i < |lens| ==> lens[i] <= root
  {
    hide Decodes, Kraft, Shl;
    var work := new nat[288](_ => 0);
    var used;
    ret, root, used := InflateTable.InflateTable(ty, lens, codes, base, bits, work);
    table := if ret == 0 then codes[base..base + used] else [];
    NotRefused(ty, lens);
    PositiveUnit();
  }

  lemma NotRefused(ty: CodeType, lens: seq<nat>)
    requires ValidLengths(lens) && |lens| <= SymbolLimit(ty)
    ensures Usable(ty, lens) <==> !Refused(ty, lens)
    ensures Usable(ty, lens) ==> Kraft(lens, MAXBITS) <= Pow2(MAXBITS)
  {
  }

  /** `fixedtables`: the tables of the fixed codes. */
  method FixedTables() returns (lenfix: seq<Code>, lenbits: nat, distfix: seq<Code>, distbits: nat)
    ensures Serves(lenfix, lenbits, LENS, FIXED_LL) && Serves(distfix, distbits, DISTS, FIXED_DL)
  {
    FixedComplete();
    FixedSpace();
    hide Serves, Kraft, Shl;
    var fixed := new Code[ENOUGH](_ => Code(0, 0, 0));
    var ret;
    ret, lenfix, lenbits := BuildTable(LENS, FIXED_LL, fixed, 0, 9);
    ret, distfix, distbits := BuildTable(DISTS, FIXED_DL, fixed, |lenfix|, 5);
  }

  lemma FixedSpace()
    ensures !OutOfSpace(LENS, Pow2(9)) && !OutOfSpace(DISTS, Pow2(5))
    ensures ValidLengths(FIXED_LL) && !Refused(LENS, FIXED_LL) && ValidLengths(FIXED_DL) && !Refused(DISTS, FIXED_DL)
  {
    FixedComplete();
    assert Shl(1, 9) == 512 && Shl(1, 5) == 32;
    hide Shl, Kraft;
  }

  class Inflater {
    const r: BitReader
    const w: array<nat>
    const lenfix: seq<Code>
    const lenfixbits: nat
    const distfix: seq<Code>
    const distfixbits: nat

    var mode: InflateMode
    var last: bool
    var length: nat
    var offset: nat
    var extra: nat
    var nlen: nat
    var ndist: nat
    var ncode: nat
    var have: nat
    var lens: seq<nat>
    var lencode: seq<Code>
    var lenbits: nat
    var distcode: seq<Code>
    var distbits: nat
    var wsize: nat
    var wnext: nat
    var whave: nat

    /** All input and output so far, the lengths the tables stand for, and whether
        `inflate_table` ran out of space for a usable code. */
    ghost var fed: seq<bool>
    ghost var output: seq<nat>
    ghost var ll: seq<nat>
    ghost var dl: seq<nat>
    ghost var cl: seq<nat>
    ghost var got: seq<nat>
    ghost var ranOut: bool

    ghost function AbsMode(): Mode
      reads this
    {
      match mode
      case TYPEDO => Type
      case STORED => Stored
      case COPY => Copy(length)
      case TABLE => Table
      case LENLENS => LenLens(nlen, ndist, ncode, got)
      case CODELENS => CodeLens(nlen, ndist, cl, if have <= |lens| then lens[..have] else [])
      case LEN => Len
      case LENEXT => LenExt(length, extra)
      case DIST => Dist(length)
      case DISTEXT => DistExt(length, offset, extra)
      case MATCH => Match(length, offset)
      case LIT => Lit(length)
      case DONE => Done
      case BAD => Bad
    }

    /** The state of the reference decoder. */
    ghost function Abs(): State
      reads this
    {
      State(AbsMode(), last, ll, dl, output)
    }

    /** The tables stand for the codes of the block. */
    ghost predicate Tables()
      reads this
    {
      Serves(lencode, lenbits, LENS, ll) && Serves(distcode, distbits, DISTS, dl)
    }

    ghost predicate Header()
      reads this
    {
      257 <= nlen <= 286 && 1 <= ndist <= 30
    }

    /** What holds in each mode. */
    ghost predicate Shape()
      reads this
    {
      match mode
      case LENLENS =>
        Header() && ncode <= 19 && have == |got| <= ncode && Sent(lens, got)
      case CODELENS =>
        && |lens| == LENS_SIZE && Header() && have <= nlen + ndist && Serves(lencode, lenbits, CODES, cl)
        && (forall i :: 0 <= i < |cl| ==> cl[i] <= lenbits)
        && ValidLengths(lens[..have])
      case LEN => Tables()
      case LIT => Tables() && length < 256
      case LENEXT => Tables() && 3 <= length && extra <= 5
      case DIST => Tables() && 3 <= length
      case DISTEXT => Tables() && 3 <= length && DistCode(offset, extra)
      case MATCH => Tables() && 1 <= length && 1 <= offset <= WSIZE
      case _ => true
    }

    /** No more bits are held than were needed: under a byte, or too few for the next step. */
    ghost predicate Tight()
      reads this, r
    {
      match mode
      case COPY => r.bits == 0
      case DONE => r.bits == 0
      case BAD => true
      case _ => r.bits < 8 || Step(Abs(), BitsOf(r.hold, r.bits)) == Stuck
    }

    ghost predicate Fixed() {
      Serves(lenfix, lenfixbits, LENS, FIXED_LL) && Serves(distfix, distfixbits, DISTS, FIXED_DL)
    }

    /** The decoder is where the reference decoder is. */
    ghost predicate Good()
      reads this, r
    {
      |lens| == LENS_SIZE && r.Valid() && At(fed, Abs(), r.Rest()) && Shape() && Tight() && Fixed()
    }

    ghost predicate Waiting()
      reads this, r
      requires r.next <= |r.input|
    {
      Step(Abs(), r.Rest()) == Stuck
    }

    constructor ()
      ensures Good() && fed == [] && output == [] && !ranOut && mode == TYPEDO
      ensures fresh(r) && fresh(w) && wsize == 0 && Window()
    {
      r := new BitReader([]);
      w := new nat[WSIZE](_ => 0);
      var lt, lb, dt, db := FixedTables();
      lenfix, lenfixbits, distfix, distfixbits := lt, lb, dt, db;
      mode, last, length, offset, extra := TYPEDO, false, 0, 0, 0;
      nlen, ndist, ncode, have := 0, 0, 0, 0;
      lens := seq(LENS_SIZE, _ => 0);
      lencode, lenbits, distcode, distbits := [], 0, [], 0;
      wsize, wnext, whave := 0, 0, 0;
      fed, output, ll, dl, cl, got, ranOut := [], [], [], [], [], [], false;
      new;
      hide Serves, Step;
      AtStart([]);
    }

    /** The window holds the end of the output of earlier calls. */
    ghost predicate Window()
      reads this, w
    {
      w.Length == WSIZE && Holds(w[..], wnext, whave, output)
    }

    // -------------------------------------------------------------- block headers

    /** What every mode can count on. */
    lemma Facts()
      requires Good()
      ensures |lens| == LENS_SIZE && r.Valid() && At(fed, Abs(), r.Rest()) && Fixed()
      ensures mode != COPY && mode != DONE && mode != BAD ==> r.bits < 8 || Step(Abs(), BitsOf(r.hold, r.bits)) == Stuck
    {
      hide At, Step, Serves;
    }

    /** A mode in which nothing is kept in the fields. */
    lemma Plain()
      requires mode == TYPEDO || mode == STORED || mode == TABLE || mode == BAD
      requires |lens| == LENS_SIZE && r.Valid() && At(fed, Abs(), r.Rest()) && Fixed() && (r.bits < 8 || mode == BAD)
      ensures Good()
    {
      hide At, Step, Serves;
    }

    lemma PlainShape()
      ensures mode == TYPEDO || mode == STORED || mode == TABLE || mode == BAD ==> Shape()
    {
    }

    lemma Ended()
      requires (mode == DONE || mode == COPY) && r.bits == 0
      requires |lens| == LENS_SIZE && r.Valid() && At(fed, Abs(), r.Rest()) && Fixed()
      ensures Good()
    {
      hide At, Step, Serves;
    }

    /** A step that has to wait, with all input taken. */
    lemma StillWaiting()
      requires |lens| == LENS_SIZE && r.Valid() && At(fed, Abs(), r.Rest()) && Fixed() && Shape()
      requires mode != COPY && mode != DONE
      requires Waiting() && r.next == |r.input|
      ensures Good()
    {
      hide Step, At, Serves, BitsOf, Shape;
      AllHeld(r);
    }

    /** Another mode with the same contents. */
    lemma Moved()
      requires |lens| == LENS_SIZE && r.Valid() && At(fed, Abs(), r.Rest()) && Fixed() && Shape() && r.bits < 8
      requires mode != COPY && mode != DONE
      ensures Good()
    {
      hide Step, At, Serves, BitsOf, Shape;
    }

    /** The TYPEDO state. */
    method DoType() returns (go: bool)
      requires Good() && mode == TYPEDO
      modifies r, this`mode, this`last, this`lencode, this`lenbits, this`distcode, this`distbits, this`ll, this`dl
      ensures Good() && (!go ==> Waiting() && mode == TYPEDO)
      ensures go ==>
        |r.Rest()| < |old(r.Rest())| || (|r.Rest()| == |old(r.Rest())| && ModeRank(mode) < ModeRank(old(mode)))
    {
      hide Good;
      if last {
        EndOfStream();
        return true;
      }
      go := BlockHeader();
    }

    /** After the last block the rest of its last byte is skipped. */
    method EndOfStream()
      requires Good() && mode == TYPEDO && last
      modifies r, this`mode
      ensures Good() && mode == DONE && |r.Rest()| <= |old(r.Rest())|
    {
      hide Step, At, Serves, BitsOf, ByteBits, ValueOf, Low, Shr, Shl, Good, Tight, Fixed, Shape;
      Facts();
      TypeStuck(Abs(), BitsOf(r.hold, r.bits));
      r.RestMod();
      AfterLast(fed, Abs(), r.Rest());
      r.DropBits(r.bits % 8);
      mode := DONE;
      Ended();
    }

    /** The three bits of a block header. */
    method BlockHeader() returns (go: bool)
      requires Good() && mode == TYPEDO && !last
      modifies r, this`mode, this`last, this`lencode, this`lenbits, this`distcode, this`distbits, this`ll, this`dl
      ensures Good() && (!go ==> Waiting() && mode == TYPEDO)
      ensures go ==> |r.Rest()| < |old(r.Rest())|
    {
      hide Step, At, Serves, BitsOf, ByteBits, ValueOf, Low, Shr, Shl, Good, Tight, Fixed, Shape;
      Facts();
      ghost var s, rest := Abs(), r.Rest();
      TypeStuck(s, BitsOf(r.hold, r.bits));
      TypeStuck(s, rest);
      var ok := r.NeedBits(3);
      if !ok {
        PlainShape();
        StillWaiting();
        return false;
      }
      var b, ty := TwoFields(1, 2);
      last := b == 1;
      AfterType(fed, s, rest, b, ty);
      OpenBlock(ty, s);
      return true;
    }

    /** Two fields of the stream, one behind the other. */
    method TwoFields(m: nat, n: nat) returns (a: nat, b: nat)
      requires r.Valid() && m + n <= r.bits
      modifies r
      ensures r.Valid() && m + n <= |old(r.Rest())| && r.bits == old(r.bits) - m - n
      ensures a == ValueOf(old(r.Rest())[..m]) && b == ValueOf(old(r.Rest())[m..][..n])
      ensures r.Rest() == old(r.Rest())[m..][n..]
      ensures r.next == old(r.next) && r.input == old(r.input)
    {
      hide BitsOf, ByteBits, ValueOf, Low, Shr, Shl;
      r.PeekIsPrefix(m);
      a := r.Peek(m);
      r.DropBits(m);
      r.PeekIsPrefix(n);
      b := r.Peek(n);
      r.DropBits(n);
    }

    /** One field. */
    method OneField(n: nat) returns (a: nat)
      requires r.Valid() && n <= r.bits
      modifies r
      ensures r.Valid() && n <= |old(r.Rest())| && r.bits == old(r.bits) - n
      ensures a == ValueOf(old(r.Rest())[..n]) < Pow2(n) && r.Rest() == old(r.Rest())[n..]
      ensures r.next == old(r.next) && r.input == old(r.input)
    {
      hide BitsOf, ByteBits, ValueOf, Low, Shr, Shl;
      r.PeekIsPrefix(n);
      Split(r.hold, n);
      a := r.Peek(n);
      r.DropBits(n);
    }

    /** NEEDBITS, BITS and DROPBITS of one field, where no more is held than was needed. */
    method TakeField(n: nat) returns (ok: bool, x: nat)
      requires r.Valid() && (r.bits < 8 || r.bits < n)
      modifies r
      ensures r.Valid() && r.input == old(r.input) && (ok <==> n <= |old(r.Rest())|)
      ensures ok ==> x == ValueOf(old(r.Rest())[..n]) < Pow2(n) && r.Rest() == old(r.Rest())[n..] && r.bits < 8
      ensures !ok ==> r.Rest() == old(r.Rest()) && r.next == |r.input|
    {
      hide BitsOf, ByteBits, ValueOf, Low, Shr, Shl;
      ok := r.NeedBits(n);
      x := 0;
      if ok {
        x := OneField(n);
      }
    }

    /** The four kinds of block. */
    method OpenBlock(ty: nat, ghost s: State)
      requires |lens| == LENS_SIZE && r.Valid() && Fixed() && r.bits < 8 && At(fed, Opened(s, last, ty), r.Rest())
      requires Abs().(mode := s.mode) == s.(last := last)
      modifies this`mode, this`lencode, this`lenbits, this`distcode, this`distbits, this`ll, this`dl
      ensures Good() && (mode == STORED || mode == LEN || mode == TABLE || mode == BAD)
    {
      hide Step, At, Serves, Good, Shape, Tight;
      match ty {
        case 0 =>
          mode := STORED;
          Plain();
        case 1 =>
          lencode, lenbits, distcode, distbits := lenfix, lenfixbits, distfix, distfixbits;
          ll, dl := FIXED_LL, FIXED_DL;
          mode := LEN;
          InTables();
        case 2 =>
          mode := TABLE;
          Plain();
        case _ =>
          mode := BAD;
          Plain();
      }
    }

    // -------------------------------------------------------------- stored blocks

    /** The STORED state. */
    method DoStored() returns (go: bool)
      requires Good() && mode == STORED
      modifies r, this`mode, this`length
      ensures Good() && (!go ==> Waiting() && mode == STORED)
      ensures go ==>
        |r.Rest()| < |old(r.Rest())| || (|r.Rest()| == |old(r.Rest())| && ModeRank(mode) < ModeRank(old(mode)))
    {
      hide Step, At, Serves, BitsOf, ByteBits, ValueOf, Low, Shr, Shl, Good, Tight, Fixed, Shape;
      AlignBits();
      var ok := r.NeedBits(32);
      StoredStuck(Abs(), r.Rest());
      if !ok {
        PlainShape();
        StillWaiting();
        return false;
      }
      ExactWord(r.bits);
      StoredLengths();
      return true;
    }

    /** BYTEBITS: skip to a byte boundary. */
    method AlignBits()
      requires Good() && mode == STORED
      modifies r
      ensures |lens| == LENS_SIZE && r.Valid() && At(fed, Abs(), r.Rest()) && Fixed()
      ensures r.bits < 32 && r.bits % 8 == 0 && |r.Rest()| % 8 == 0 && |r.Rest()| <= |old(r.Rest())|
    {
      hide Step, At, Serves, BitsOf, ByteBits, ValueOf, Low, Shr, Shl, Good, Tight, Fixed, Shape;
      Facts();
      StoredStuck(Abs(), BitsOf(r.hold, r.bits));
      r.RestMod();
      var pad := r.bits % 8;
      AfterPad(fed, Abs(), r.Rest(), pad);
      r.DropBits(pad);
      r.RestMod();
    }

    /** Length and complement. */
    method StoredLengths()
      requires mode == STORED && r.Valid() && r.bits == 32 && At(fed, Abs(), r.Rest()) && |lens| == LENS_SIZE && Fixed()
      modifies r, this`mode, this`length
      ensures Good()
      ensures |r.Rest()| < |old(r.Rest())| || (|r.Rest()| == |old(r.Rest())| && mode == BAD)
    {
      hide Step, At, Serves, BitsOf, ByteBits, ValueOf, Low, Shr, Shl, Good, Tight, Fixed, Shape;
      r.RestMod();
      StoredFields(r);
      var len, complement := r.Peek(16), Shr(r.hold, 16);
      AfterStored(fed, Abs(), r.Rest(), len, complement);
      if len != 65535 - complement {
        mode := BAD;
        Plain();
      } else {
        length := len;
        r.DropBits(32);
        mode := COPY;
        Ended();
      }
    }

    /** The COPY state. */
    method DoCopy(out: array<nat>, put: nat, ghost hist: seq<nat>) returns (go: bool, put': nat)
      requires Good() && mode == COPY && put <= out.Length && hist + out[..put] == output
      modifies r, out, this`mode, this`length, this`output
      ensures Good() && put <= put' <= out.Length && hist + out[..put'] == output
      ensures !go ==> (Waiting() || put' == out.Length) && mode == COPY && 0 < length
      ensures go ==>
        |r.Rest()| < |old(r.Rest())| || (|r.Rest()| == |old(r.Rest())| && ModeRank(mode) < ModeRank(old(mode)))
    {
      CopyFacts();
      hide Step, At, Serves, BitsOf, ByteBits, ValueOf, Low, Shr, Shl, Good, Tight, Fixed;
      Facts();
      ghost var s, rest := Abs(), r.Rest();
      put' := put;
      var copy := length;
      if copy == 0 {
        AfterCopied(fed, s, rest);
        mode := TYPEDO;
        Plain();
        return true, put;
      }
      if copy > |r.input| - r.next {
        copy := |r.input| - r.next;
      }
      if copy > out.Length - put {
        copy := out.Length - put;
      }
      if copy == 0 {
        CopyStuck(s, rest);
        r.RestMod();
        return false, put;
      }
      CopyBytes(out, put, copy, hist);
      return true, put + copy;
    }

    method CopyBytes(out: array<nat>, put: nat, copy: nat, ghost hist: seq<nat>)
      requires Good() && mode == COPY && put + copy <= out.Length && hist + out[..put] == output
      requires 1 <= copy <= length && r.next + copy <= |r.input|
      modifies r, out, this`length, this`output
      ensures Good() && hist + out[..put + copy] == output && |r.Rest()| < |old(r.Rest())|
    {
      hide Step, At, Serves, BitsOf, ByteBits, ValueOf, Low, Shr, Shl, Good, Tight, Fixed, Shape;
      CopyFacts();
      Facts();
      ghost var s, bytes := Abs(), r.input[r.next..r.next + copy];
      CopyInput(out, put, r.input, r.next, copy, hist, output);
      r.SkipBytes(copy);
      ByteBitsLength(bytes);
      AfterCopy(fed, s, bytes, r.Rest());
      length := length - copy;
      output := output + bytes;
      Copying(s, copy, bytes);
    }

    lemma Copying(s: State, copy: nat, bytes: seq<nat>)
      requires mode == COPY && r.bits == 0 && s.mode == Copy(length + copy) && s.out + bytes == output
      requires s.last == last && s.ll == ll && s.dl == dl
      requires |lens| == LENS_SIZE && r.Valid() && Fixed()
      requires At(fed, s.(mode := Copy(s.mode.left - copy), out := s.out + bytes), r.Rest())
      ensures Good()
    {
      hide At, Step, Serves;
      assert Abs() == s.(mode := Copy(s.mode.left - copy), out := s.out + bytes);
    }

    lemma CopyFacts()
      requires Good() && mode == COPY
      ensures r.bits == 0
    {
      hide Step, At, Serves;
    }

    // -------------------------------------------------------------- dynamic headers

    /** The TABLE state. */
    method DoTable() returns (go: bool)
      requires Good() && mode == TABLE
      modifies r, this`mode, this`nlen, this`ndist, this`ncode, this`have, this`got
      ensures Good() && (!go ==> Waiting() && mode == TABLE)
      ensures go ==> |r.Rest()| < |old(r.Rest())|
    {
      hide Step, At, Serves, BitsOf, ByteBits, ValueOf, Low, Shr, Shl, Good, Tight, Fixed, Shape;
      Facts();
      ghost var s, rest := Abs(), r.Rest();
      TableStuck(s, BitsOf(r.hold, r.bits));
      TableStuck(s, rest);
      r.RestMod();
      var ok := r.NeedBits(14);
      if !ok {
        PlainShape();
        StillWaiting();
        return false;
      }
      TableFields(s);
      if nlen > 286 || ndist > 30 {
        mode := BAD;
        Plain();
      } else {
        have, got := 0, [];
        mode := LENLENS;
        LensNext();
      }
      return true;
    }

    method TableFields(ghost s: State)
      requires r.Valid() && At(fed, s, r.Rest()) && s.mode.Table? && 14 <= r.bits
      modifies r, this`nlen, this`ndist, this`ncode
      ensures r.Valid() && |r.Rest()| < |old(r.Rest())| && r.bits == old(r.bits) - 14
      ensures 257 <= nlen && 1 <= ndist && ncode <= 19
      ensures At(fed, s.(mode := if nlen > 286 || ndist > 30 then Bad else LenLens(nlen, ndist, ncode, [])), r.Rest())
    {
      hide Step, At, Serves, BitsOf, ByteBits, ValueOf, Low, Shr, Shl;
      ghost var rest := r.Rest();
      var a, b := TwoFields(5, 5);
      var c := OneField(4);
      AfterTable(fed, s, rest, a, b, c);
      Powers();
      nlen, ndist, ncode := a + 257, b + 1, c + 4;
    }

    lemma LensNext()
      requires |lens| == LENS_SIZE && r.Valid() && At(fed, Abs(), r.Rest()) && Fixed() && Header() && r.bits < 8
      requires mode == LENLENS && have == 0 && got == [] && ncode <= 19
      ensures Good()
    {
      hide At, Step, Serves;
    }

    /** The LENLENS state: one length, or the table of the code length code. */
    method DoLenLens() returns (go: bool)
      requires Good() && mode == LENLENS
      modifies r, this`mode, this`have, this`got, this`lens, this`cl, this`lencode, this`lenbits
      ensures Good() && (!go ==> Waiting() && mode == LENLENS)
      ensures go ==>
        |r.Rest()| < |old(r.Rest())| || (|r.Rest()| == |old(r.Rest())| && ModeRank(mode) < ModeRank(old(mode)))
    {
      hide Step, At, Serves, BitsOf, ByteBits, ValueOf, Low, Shr, Shl, Good, Tight, Fixed, Sent;
      LenLensFacts();
      Facts();
      ghost var s, rest := Abs(), r.Rest();
      LenLensStuck(s, BitsOf(r.hold, r.bits));
      LenLensStuck(s, rest);
      if have < ncode {
        var ok, v := TakeField(3);
        if !ok {
          StillWaiting();
          return false;
        }
        Powers();
        AfterLenLen(fed, s, rest, v);
        SentMore(lens, got, v);
        lens := lens[ORDER[have] := v];
        got := got + [v];
        have := have + 1;
        Moved();
      } else {
        CodeLengthTable();
      }
      return true;
    }

    lemma LenLensFacts()
      requires Good() && mode == LENLENS
      ensures Header() && ncode <= 19 && have == |got| <= ncode && Sent(lens, got) && (have == ncode ==> r.bits < 8)
    {
      LenLensStuck(Abs(), BitsOf(r.hold, r.bits));
      hide Step, At, Serves, Sent;
    }

    /** Build the table for reading the other lengths. */
    method CodeLengthTable()
      requires Good() && mode == LENLENS && have == ncode
      modifies this`mode, this`have, this`lens, this`cl, this`lencode, this`lenbits
      ensures Good() && (mode == BAD || mode == CODELENS)
    {
      hide Step, At, Serves, BitsOf, ByteBits, Shl, Good, Tight, Fixed, Sent, Shape, LengthsSent, Usable;
      LenLensFacts();
      Facts();
      ghost var s, rest := Abs(), r.Rest();
      FillZeros();
      cl := LengthsSent(got);
      AfterLenLens(fed, s, rest);
      BuildCodeLengths(s);
    }

    /** The table of the code length code, if it can be used. */
    method BuildCodeLengths(ghost s: State)
      requires |lens| == LENS_SIZE && r.Valid() && Fixed() && Header() && r.bits < 8 && s.mode.LenLens?
      requires s == State(LenLens(nlen, ndist, s.mode.ncode, s.mode.got), last, ll, dl, output)
      requires |cl| == 19 && lens[..19] == cl && forall i :: 0 <= i < 19 ==> lens[i] < 8
      requires !Usable(CODES, cl) ==> At(fed, s.(mode := Bad), r.Rest())
      requires Usable(CODES, cl) ==> At(fed, s.(mode := CodeLens(nlen, ndist, cl, [])), r.Rest())
      modifies this`mode, this`have, this`lencode, this`lenbits
      ensures Good() && (mode == BAD || mode == CODELENS)
    {
      hide Step, At, Serves, BitsOf, ByteBits, Shl, Good, Tight, Fixed, Shape, Usable;
      Powers();
      var codes := new Code[ENOUGH](_ => Code(0, 0, 0));
      var ret, table, root := BuildTable(CODES, lens[..19], codes, 0, 7);
      if ret != 0 {
        mode := BAD;
        Plain();
      } else {
        lencode, lenbits := table, root;
        have := 0;
        mode := CODELENS;
        LengthsNext();
      }
    }

    lemma LengthsNext()
      requires |lens| == LENS_SIZE && r.Valid() && Fixed() && Header() && r.bits < 8
      requires mode == CODELENS && have == 0
      requires At(fed, State(CodeLens(nlen, ndist, cl, []), last, ll, dl, output), r.Rest())
      requires Serves(lencode, lenbits, CODES, cl) && forall i :: 0 <= i < |cl| ==> cl[i] <= lenbits
      ensures Good()
    {
      hide At, Step, Serves;
      assert lens[..have] == [];
    }

    /** The unsent lengths are 0. */
    method FillZeros()
      requires |got| == have <= 19 && |lens| == LENS_SIZE && Sent(lens, got)
      modifies this`have, this`lens
      ensures |lens| == LENS_SIZE && lens[..19] == LengthsSent(got) && forall i :: 0 <= i < 19 ==> lens[i] < 8
    {
      hide Sent, LengthsSent;
      NoRepeat(got);
      while have < 19
        invariant |got| <= have <= 19 && |lens| == LENS_SIZE && Sent(lens, got + Repeat(0, have - |got|))
      {
        SentMore(lens, got + Repeat(0, have - |got|), 0);
        lens := lens[ORDER[have] := 0];
        have := have + 1;
        OneMoreZero(got, have - |got|);
      }
      SentAll(lens, got, have - |got|);
    }

    // -------------------------------------------------------------- code lengths

    lemma CodeLensFacts()
      requires Good() && mode == CODELENS
      ensures Header() && have <= nlen + ndist <= |lens| && Serves(lencode, lenbits, CODES, cl)
      ensures ValidLengths(lens[..have])
      ensures forall i :: 0 <= i < |cl| ==> cl[i] <= lenbits
      ensures Shape() && (have == nlen + ndist ==> r.bits < 8)
    {
      CodeLensStuck(Abs(), BitsOf(r.hold, r.bits));
      hide Step, At, Serves, SymbolAt;
    }

    /** CODELENS, while lengths are missing: one symbol. */
    method ReadLength() returns (go: bool)
      requires Good() && mode == CODELENS && have < nlen + ndist
      modifies r, this`mode, this`have, this`lens
      ensures Good() && (!go ==> Waiting() && mode == CODELENS)
      ensures go ==> |r.Rest()| < |old(r.Rest())|
    {
      hide Step, At, Serves, BitsOf, ByteBits, ValueOf, Low, Shr, Shl, Good, Tight, Fixed, SymbolAt, FoundBits, Shape;
      CodeLensFacts();
      Facts();
      ghost var s, rest := Abs(), r.Rest();
      CodeLensStuck(s, BitsOf(r.hold, r.bits));
      CodeLensStuck(s, rest);
      var ok, here, f := FindShort(r, lencode, lenbits, CODES, cl);
      if !ok {
        StillLengths();
        return false;
      }
      LengthEntry(f, here);
      SymbolWidth(CODES, cl, rest);
      if here.val < 16 {
        r.DropBits(here.bits);
        AfterCodeLen(fed, s, rest, f);
        lens := lens[have := here.val];
        have := have + 1;
        Grown(s, here.val, 1);
        return true;
      }
      go := ReadRun(here.val, here.bits, f);
    }

    lemma StillLengths()
      requires |lens| == LENS_SIZE && r.Valid() && At(fed, Abs(), r.Rest()) && Fixed()
      requires mode == CODELENS && Header() && have <= nlen + ndist && ValidLengths(lens[..have])
      requires Serves(lencode, lenbits, CODES, cl) && forall i :: 0 <= i < |cl| ==> cl[i] <= lenbits
      requires Waiting() && r.next == |r.input|
      ensures Good()
    {
      hide Step, At, Serves;
      StillWaiting();
    }

    /** `n` more lengths `v`, the last step read from state `s`. */
    lemma Grown(s: State, v: nat, n: nat)
      requires |lens| == LENS_SIZE && r.Valid() && r.bits < 8 && Fixed()
      requires mode == CODELENS && Header() && n <= have <= nlen + ndist && ValidLengths(lens[..have - n]) && v < 16
      requires Serves(lencode, lenbits, CODES, cl) && forall i :: 0 <= i < |cl| ==> cl[i] <= lenbits
      requires s == State(CodeLens(nlen, ndist, cl, lens[..have - n]), last, ll, dl, output)
      requires lens[have - n..have] == Repeat(v, n) && At(fed, Lengthened(s, v, n), r.Rest())
      ensures Good()
    {
      hide Step, At, Serves, Repeat;
      assert lens[..have] == lens[..have - n] + Repeat(v, n);
      ValidMore(lens[..have - n], v, n);
    }

    /** A run: of the length before, or of zeros. */
    method ReadRun(v: nat, n: nat, ghost f: Found) returns (go: bool)
      requires r.Valid() && mode == CODELENS && |lens| == LENS_SIZE && Fixed() && At(fed, Abs(), r.Rest()) && Shape()
      requires have < nlen + ndist && f == SymbolAt(CODES, cl, r.Rest()) != Wait && v == LengthSymbol(f)
      requires n == FoundBits(cl, f)
      requires 16 <= v <= 18 && 1 <= n <= r.bits
      requires r.bits < n + 8 || r.bits < 8 || r.bits < n + RunBits(v)
      modifies r, this`mode, this`have, this`lens
      ensures Good() && (!go ==> Waiting() && mode == CODELENS)
      ensures go ==> |r.Rest()| < |old(r.Rest())|
    {
      hide Step, At, Serves, BitsOf, ByteBits, ValueOf, Low, Shr, Shl, Good, Tight, Fixed, SymbolAt, FoundBits;
      ghost var s, rest := Abs(), r.Rest();
      CodeLensStuck(s, rest);
      var ok := r.NeedBits(n + RunBits(v));
      if !ok {
        StillLengths();
        return false;
      }
      r.DropBits(n);
      if v == 16 && have == 0 {
        mode := BAD;
        AfterRun(fed, s, rest, f, ValueOf(r.Rest()[..2]));
        Plain();
        return true;
      }
      var x := OneField(RunBits(v));
      AfterRun(fed, s, rest, f, x);
      FillRun(v, RunBase(v) + x, s);
      return true;
    }

    /** The lengths of a run, if there is room for them. */
    method FillRun(v: nat, copy: nat, ghost s: State)
      requires mode == CODELENS && |lens| == LENS_SIZE && r.Valid() && Fixed() && Shape() && s == Abs() && r.bits < 8
      requires v == 16 ==> 0 < have
      requires At(fed, Lengthened(s, if v == 16 then lens[have - 1] else 0, copy), r.Rest())
      modifies this`mode, this`have, this`lens
      ensures Good()
    {
      hide Step, At, Serves, Good, Tight, Fixed;
      var len := if v == 16 then lens[have - 1] else 0;
      assert len < 16 by {
        if v == 16 { assert lens[..have][have - 1] == len; }
      }
      if have + copy > nlen + ndist {
        mode := BAD;
        Plain();
        return;
      }
      ghost var old_have, old_lens := have, lens[..have];
      var left := copy;
      while left != 0
        invariant mode == CODELENS && 0 <= left <= copy && |lens| == LENS_SIZE
        invariant have + left == old_have + copy <= nlen + ndist
        invariant lens[..old_have] == old_lens
        invariant forall i :: old_have <= i < have ==> lens[i] == len
        decreases left
      {
        lens := lens[have := len];
        have := have + 1;
        left := left - 1;
      }
      RunOf(lens, old_have, have, len);
      Grown(s, len, copy);
    }

    /** CODELENS with all lengths there: build the tables of the block. */
    method BlockTables()
      requires Good() && mode == CODELENS && have == nlen + ndist && !ranOut
      modifies this`mode, this`lencode, this`lenbits, this`distcode, this`distbits, this`ll, this`dl, this`ranOut
      ensures ranOut ==> mode == BAD
      ensures !ranOut ==> Good() && (mode == BAD || mode == LEN)
    {
      hide Step, At, Serves, BitsOf, ByteBits, Shl, Good, Tight, Fixed, Shape, Usable;
      CodeLensFacts();
      Facts();
      ghost var s, rest := Abs(), r.Rest();
      AfterCodeLens(fed, s, rest);
      ghost var all := lens[..have];
      assert all[..nlen] == lens[..nlen] && all[nlen..] == lens[nlen..have] && all[256] == lens[256];
      if lens[256] == 0 {
        mode := BAD;
        Plain();
        return;
      }
      var codes := new Code[ENOUGH](_ => Code(0, 0, 0));
      var ret, table, root := BuildTable(LENS, lens[..nlen], codes, 0, 9);
      if ret != 0 {
        mode := BAD;
        if ret == 1 { ranOut := true; } else { Plain(); }
        return;
      }
      lencode, lenbits := table, root;
      DistTable(codes, s);
    }

    /** The second table of a block. */
    method DistTable(codes: array<Code>, ghost s: State)
      requires |lens| == LENS_SIZE && r.Valid() && Fixed() && r.bits < 8 && !ranOut && Header() && have == nlen + ndist
      requires ValidLengths(lens[nlen..have]) && Serves(lencode, lenbits, LENS, lens[..nlen]) && |lencode| < ENOUGH_LENS
      requires codes.Length == ENOUGH && s.out == output && s.last == last && s.ll == ll && s.dl == dl
      requires if Usable(DISTS, lens[nlen..have]) then At(fed,
        s.(mode := Len, ll := lens[..nlen], dl := lens[nlen..have]), r.Rest())
               else At(fed, s.(mode := Bad), r.Rest())
      modifies codes, this`mode, this`distcode, this`distbits, this`ll, this`dl, this`ranOut
      ensures ranOut ==> mode == BAD
      ensures !ranOut ==> Good() && (mode == BAD || mode == LEN)
    {
      hide Step, At, Serves, BitsOf, ByteBits, Shl, Good, Tight, Fixed, Shape, Usable;
      var ret, table, root := BuildTable(DISTS, lens[nlen..have], codes, |lencode|, 6);
      if ret != 0 {
        mode := BAD;
        if ret == 1 { ranOut := true; } else { Plain(); }
        return;
      }
      distcode, distbits := table, root;
      ll, dl := lens[..nlen], lens[nlen..have];
      mode := LEN;
      InTables();
    }

    /** The LEN state, with tables ready. */
    lemma InTables()
      requires |lens| == LENS_SIZE && r.Valid() && At(fed, Abs(), r.Rest()) && Fixed() && r.bits < 8
      requires mode == LEN && Tables()
      ensures Good()
    {
      hide At, Step, Serves;
    }

    // -------------------------------------------------------------- symbols

    lemma BlockFacts()
      requires Good() && mode in {LEN, LENEXT, DIST, DISTEXT, MATCH, LIT}
      ensures Tables() && Shape()
      ensures mode == LENEXT ==> 3 <= length && extra <= 5
      ensures mode == DIST ==> 3 <= length
      ensures mode == DISTEXT ==> 3 <= length && DistCode(offset, extra)
      ensures mode == MATCH ==> 1 <= length && 1 <= offset <= WSIZE
    {
      hide At, Step, Serves, DistCode;
    }

    /** The LEN state, one symbol at a time. */
    method DoLen() returns (go: bool)
      requires Good() && mode == LEN
      modifies r, this`mode, this`length, this`extra
      ensures Good() && (!go ==> Waiting() && mode == LEN)
      ensures go ==> |r.Rest()| < |old(r.Rest())|
    {
      hide Step, At, Serves, BitsOf, ByteBits, ValueOf, Low, Shr, Shl, Good, Tight, Fixed, SymbolAt, FoundBits, Shape,
           SymbolEntry, LenMode;
      BlockFacts();
      Facts();
      ghost var s, rest := Abs(), r.Rest();
      LenStuck(s, BitsOf(r.hold, r.bits));
      LenStuck(s, rest);
      var ok, here, len, f := FindSymbol(r, lencode, lenbits, LENS, ll);
      if !ok {
        StillWaiting();
        return false;
      }
      SymbolWidth(LENS, ll, rest);
      AfterLen(fed, s, rest, f, here);
      r.DropBits(len);
      LenSymbol(here, s);
      return true;
    }

    /** What follows a literal/length symbol. */
    method LenSymbol(here: Code, ghost s: State)
      requires |lens| == LENS_SIZE && r.Valid() && Fixed() && r.bits < 8 && Tables() && s == Abs()
      requires At(fed, s.(mode := LenMode(here)), r.Rest())
      requires LenMode(here).LenExt? ==> LenCode(here.val, here.op % 16)
      requires LenMode(here).Lit? ==> here.val < 256
      modifies this`mode, this`length, this`extra
      ensures Good() && mode in {LIT, TYPEDO, BAD, LENEXT}
    {
      hide Step, At, Serves, Fixed;
      length := here.val;
      if here.op == 0 {
        mode := LIT;
        return;
      }
      if Has32(here.op) {
        mode := TYPEDO;
        return;
      }
      if Has64(here.op) {
        mode := BAD;
        return;
      }
      extra := here.op % 16;
      mode := LENEXT;
    }

    /** The LENEXT state. */
    method DoLenExt() returns (go: bool)
      requires Good() && mode == LENEXT
      modifies r, this`mode, this`length
      ensures Good() && (!go ==> Waiting() && mode == LENEXT)
      ensures go ==> |r.Rest()| <= |old(r.Rest())| && mode == DIST
    {
      hide Step, At, Serves, BitsOf, ByteBits, ValueOf, Low, Shr, Shl, Good, Tight, Fixed, Shape;
      BlockFacts();
      Facts();
      ghost var s, rest := Abs(), r.Rest();
      LenExtStuck(s, BitsOf(r.hold, r.bits));
      LenExtStuck(s, rest);
      var ok, x := TakeField(extra);
      if !ok {
        StillWaiting();
        return false;
      }
      AfterLenExt(fed, s, rest, x);
      length := length + x;
      mode := DIST;
      DistNext();
      return true;
    }

    lemma DistNext()
      requires |lens| == LENS_SIZE && r.Valid() && At(fed, Abs(), r.Rest()) && Fixed() && r.bits < 8 && Tables()
      requires (mode == DIST && 3 <= length) || (mode == MATCH && 1 <= length && 1 <= offset <= WSIZE)
      ensures Good()
    {
      hide Step, At, Serves;
    }

    /** The DIST state. */
    method DoDist() returns (go: bool)
      requires Good() && mode == DIST
      modifies r, this`mode, this`offset, this`extra
      ensures Good() && (!go ==> Waiting() && mode == DIST)
      ensures go ==> |r.Rest()| < |old(r.Rest())|
    {
      hide Step, At, Serves, BitsOf, ByteBits, ValueOf, Low, Shr, Shl, Good, Tight, Fixed, SymbolAt, FoundBits, Shape,
           SymbolEntry, DistMode, DistCode;
      BlockFacts();
      Facts();
      ghost var s, rest := Abs(), r.Rest();
      DistStuck(s, BitsOf(r.hold, r.bits));
      DistStuck(s, rest);
      var ok, here, len, f := FindSymbol(r, distcode, distbits, DISTS, dl);
      if !ok {
        StillWaiting();
        return false;
      }
      SymbolWidth(DISTS, dl, rest);
      AfterDist(fed, s, rest, f, here);
      r.DropBits(len);
      DistSymbol(here, s);
      return true;
    }

    /** What follows a distance symbol. */
    method DistSymbol(here: Code, ghost s: State)
      requires |lens| == LENS_SIZE && r.Valid() && Fixed() && r.bits < 8 && Tables() && s == Abs() && 3 <= length
      requires At(fed, s.(mode := DistMode(here, length)), r.Rest())
      requires DistMode(here, length).DistExt? ==> DistCode(here.val, here.op % 16)
      modifies this`mode, this`offset, this`extra
      ensures Good() && mode in {BAD, DISTEXT}
    {
      hide Step, At, Serves, Fixed, DistCode;
      if Has64(here.op) {
        mode := BAD;
        return;
      }
      offset := here.val;
      extra := here.op % 16;
      mode := DISTEXT;
    }

    /** The DISTEXT state. */
    method DoDistExt() returns (go: bool)
      requires Good() && mode == DISTEXT
      modifies r, this`mode, this`offset
      ensures Good() && (!go ==> Waiting() && mode == DISTEXT)
      ensures go ==> |r.Rest()| <= |old(r.Rest())| && mode == MATCH
    {
      hide Step, At, Serves, BitsOf, ByteBits, ValueOf, Low, Shr, Shl, Good, Tight, Fixed, Shape;
      BlockFacts();
      Facts();
      ghost var s, rest := Abs(), r.Rest();
      DistExtStuck(s, BitsOf(r.hold, r.bits));
      DistExtStuck(s, rest);
      var ok, x := TakeField(extra);
      if !ok {
        StillWaiting();
        return false;
      }
      AfterDistExt(fed, s, rest, x);
      offset := offset + x;
      mode := MATCH;
      DistNext();
      return true;
    }

    // -------------------------------------------------------------- output

    /** The MATCH state. */
    method DoMatch(out: array<nat>, put: nat, ghost hist: seq<nat>) returns (go: bool, put': nat)
      requires Good() && mode == MATCH && put <= out.Length && hist + out[..put] == output
      requires out != w && w.Length == WSIZE && Holds(w[..], wnext, whave, hist)
      modifies out, this`mode, this`length, this`output
      ensures Good() && put <= put' <= out.Length && hist + out[..put'] == output
      ensures !go ==> put' == out.Length && mode == MATCH && 0 < length
      ensures go ==> put < put' || mode == BAD
    {
      hide Step, At, Serves, BitsOf, ByteBits, Good, Tight, Fixed, Shape, Holds, Matched;
      BlockFacts();
      Facts();
      MatchTight();
      ghost var s, rest := Abs(), r.Rest();
      if put == out.Length {
        return false, put;
      }
      var copy := MatchStep(out, put, w, wnext, whave, offset, length, hist);
      if copy == 0 {
        AfterBadMatch(fed, s, rest);
        assert hist + out[..put] == output;
        mode := BAD;
        Plain();
        return true, put;
      }
      AfterMatch(fed, s, rest, copy);
      length := length - copy;
      output := hist + out[..put + copy];
      if length == 0 {
        mode := LEN;
        InTables();
      } else {
        DistNext();
      }
      return true, put + copy;
    }

    lemma MatchTight()
      requires Good() && (mode == MATCH || mode == LIT)
      ensures r.bits < 8
    {
      BlockFacts();
      assert Step(Abs(), BitsOf(r.hold, r.bits)) != Stuck;
      hide At, Step, Serves;
    }

    /** The LIT state. */
    method DoLit(out: array<nat>, put: nat, ghost hist: seq<nat>) returns (go: bool, put': nat)
      requires Good() && mode == LIT && put <= out.Length && hist + out[..put] == output
      modifies out, this`mode, this`output
      ensures Good() && put <= put' <= out.Length && hist + out[..put'] == output
      ensures !go ==> put' == out.Length && mode == LIT
      ensures go ==> put < put'
    {
      hide Step, At, Serves, BitsOf, ByteBits, Good, Tight, Fixed, Shape, Holds, Matched;
      BlockFacts();
      Facts();
      MatchTight();
      if put == out.Length {
        return false, put;
      }
      AfterLit(fed, Abs(), r.Rest());
      ghost var was := out[..put];
      out[put] := length;
      assert out[..put + 1] == was + [length];
      output := output + [length];
      assert hist + out[..put + 1] == output;
      mode := LEN;
      InTables();
      return true, put + 1;
    }

    // -------------------------------------------------------------- inflate_fast

    /** Between the symbols of `inflate_fast`: as `Good`, but with any number of bits held. */
    ghost predicate Loose(m: Mode)
      reads this, r
    {
      |lens| == LENS_SIZE && r.Valid() && At(fed, State(m, last, ll, dl, output), r.Rest()) && Tables() && Fixed()
    }

    /** Two bytes when fewer than 15 bits are held. */
    method Refill(ghost m: Mode)
      requires Loose(m) && 28 <= |r.Rest()|
      modifies r
      ensures Loose(m) && r.Rest() == old(r.Rest()) && 15 <= r.bits && r.input == old(r.input)
    {
      hide Step, At, Serves, BitsOf, ByteBits, Low, Shr, Shl, Fixed;
      r.RestMod();
      if r.bits < 15 {
        r.PullByte();
        r.PullByte();
      }
    }

    /** `n` extra bits, pulling bytes as long as they are missing. */
    method ExtraBits(n: nat, ghost m: Mode) returns (x: nat)
      requires Loose(m) && n <= 13 <= |r.Rest()|
      modifies r
      ensures r.Valid() && n <= |old(r.Rest())| && x == ValueOf(old(r.Rest())[..n]) < Pow2(n)
      ensures r.Rest() == old(r.Rest())[n..]
      ensures r.input == old(r.input)
    {
      hide Step, At, Serves, BitsOf, ByteBits, Low, Shr, Shl, Fixed, ValueOf;
      r.RestMod();
      if r.bits < n {
        r.PullByte();
        if r.bits < n {
          r.PullByte();
        }
      }
      x := OneField(n);
    }

    /** One turn of the decoding loop: a literal, a match, the end of the block or an error. */
    method FastSymbol(out: array<nat>, put: nat, ghost hist: seq<nat>) returns (put': nat)
      requires Loose(Len) && mode == LEN && 48 <= |r.Rest()| && put + 258 <= out.Length && hist + out[..put] == output
      requires out != w && w.Length == WSIZE && Holds(w[..], wnext, whave, hist)
      modifies r, out, this`mode, this`output
      ensures mode in {LEN, TYPEDO, BAD} && Loose(AbsMode()) && put <= put' <= out.Length
      ensures hist + out[..put'] == output
      ensures r.input == old(r.input)
      ensures SymbolAt(LENS, ll, old(r.Rest())) != Wait
      ensures |r.Rest()| + FoundBits(ll, SymbolAt(LENS, ll, old(r.Rest()))) <= |old(r.Rest())|
      ensures |r.Rest()| < |old(r.Rest())|
    {
      hide Step, At, Serves, BitsOf, ByteBits, Low, Shr, Shl, Fixed, SymbolAt, FoundBits, SymbolEntry, LenMode,
           LenCode, Holds, Matched, Has16, Has32, Has64;
      ghost var s, rest := Abs(), r.Rest();
      Refill(Len);
      var here, f := FastLookup(r, lencode, lenbits, LENS, ll);
      AfterLen(fed, s, rest, f, here);
      LenModes(here);
      put' := put;
      if here.op == 0 {
        AfterLit(fed, s.(mode := LenMode(here)), r.Rest());
        OneByte(out, put, here.val, hist);
        output := output + [here.val];
        put' := put + 1;
      } else if Has16(here.op) {
        put' := FastMatch(out, put, here, hist);
      } else if Has32(here.op) {
        mode := TYPEDO;
      } else {
        mode := BAD;
      }
    }

    /** Length, distance and copy of a match. */
    method FastMatch(out: array<nat>, put: nat, here0: Code, ghost hist: seq<nat>) returns (put': nat)
      requires LenMode(here0).LenExt? && LenCode(here0.val, here0.op % 16) && Loose(LenExt(here0.val, here0.op % 16))
      requires mode == LEN && 33 <= |r.Rest()| && put + 258 <= out.Length && hist + out[..put] == output
      requires out != w && w.Length == WSIZE && Holds(w[..], wnext, whave, hist)
      modifies r, out, this`mode, this`output
      ensures mode in {LEN, BAD} && Loose(AbsMode()) && put <= put' <= out.Length && hist + out[..put'] == output
      ensures r.input == old(r.input) && |r.Rest()| <= |old(r.Rest())|
    {
      hide Step, At, Serves, BitsOf, ByteBits, ValueOf, Low, Shr, Shl, Fixed, LenMode, LenCode, Holds, Matched;
      CodeExtra(here0.val, here0.op % 16);
      ghost var s, rest := State(LenExt(here0.val, here0.op % 16), last, ll, dl, output), r.Rest();
      var len := here0.val;
      var x := ExtraBits(here0.op % 16, s.mode);
      AfterLenExt(fed, s, rest, x);
      len := len + x;
      LengthBound(here0.val, here0.op % 16);
      put' := FastDist(out, put, len, hist);
    }

    /** Distance and copy. */
    method FastDist(out: array<nat>, put: nat, len: nat, ghost hist: seq<nat>) returns (put': nat)
      requires 3 <= len <= 258 && Loose(Dist(len)) && mode == LEN && 28 <= |r.Rest()|
      requires put + 258 <= out.Length && hist + out[..put] == output
      requires out != w && w.Length == WSIZE && Holds(w[..], wnext, whave, hist)
      modifies r, out, this`mode, this`output
      ensures mode in {LEN, BAD} && Loose(AbsMode()) && put <= put' <= out.Length && hist + out[..put'] == output
      ensures r.input == old(r.input) && |r.Rest()| <= |old(r.Rest())|
    {
      hide Step, At, Serves, BitsOf, ByteBits, ValueOf, Low, Shr, Shl, Fixed, SymbolAt, FoundBits;
      hide SymbolEntry, DistMode, DistCode, Holds, Matched, Has16, Has64;
      ghost var s, rest := State(Dist(len), last, ll, dl, output), r.Rest();
      Refill(Dist(len));
      var here, f := FastLookup(r, distcode, distbits, DISTS, dl);
      AfterDist(fed, s, rest, f, here);
      DistModes(here, len);
      if Has16(here.op) {
        s, rest := s.(mode := DistExt(len, here.val, here.op % 16)), r.Rest();
        DistBound(here.val, here.op % 16);
        var x := ExtraBits(here.op % 16, s.mode);
        AfterDistExt(fed, s, rest, x);
        put' := FastOutput(out, put, len, here.val + x, hist);
      } else {
        mode := BAD;
        put' := put;
      }
    }

    /** The copy, or an error when the distance reaches too far back. */
    method FastOutput(out: array<nat>, put: nat, len: nat, dist: nat, ghost hist: seq<nat>) returns (put': nat)
      requires Loose(Match(len, dist)) && 1 <= len <= 258 && 1 <= dist <= WSIZE
      requires mode == LEN && put + 258 <= out.Length && hist + out[..put] == output
      requires out != w && w.Length == WSIZE && Holds(w[..], wnext, whave, hist)
      modifies out, this`mode, this`output
      ensures mode in {LEN, BAD} && Loose(AbsMode()) && put <= put' <= out.Length && hist + out[..put'] == output
    {
      hide Step, At, Serves, Fixed, Holds, Matched;
      ghost var s := State(Match(len, dist), last, ll, dl, output);
      var ok := FastCopy(out, put, w, wnext, whave, dist, len, hist);
      if ok {
        AfterMatch(fed, s, r.Rest(), len);
        output := hist + out[..put + len];
        return put + len;
      }
      AfterBadMatch(fed, s, r.Rest());
      assert hist + out[..put] == output;
      mode := BAD;
      return put;
    }

    /** `inflate_fast`: decode while at least 6 bytes of input and room for 258 bytes remain,
        then give unused bytes back. */
    method InflateFast(out: array<nat>, put: nat, ghost hist: seq<nat>) returns (put': nat)
      requires Good() && mode == LEN && r.next + 6 <= |r.input| && put + 258 <= out.Length
      requires hist + out[..put] == output
      requires out != w && w.Length == WSIZE && Holds(w[..], wnext, whave, hist)
      modifies r, out, this`mode, this`output
      ensures Good() && mode in {LEN, TYPEDO, BAD} && put <= put' <= out.Length && hist + out[..put'] == output
      ensures |r.Rest()| < |old(r.Rest())|
    {
      hide Step, At, Serves, BitsOf, ByteBits, Low, Shr, Shl, Fixed, SymbolAt, FoundBits, Holds, Good, Shape, Tight;
      BlockFacts();
      Facts();
      LenStuck(Abs(), BitsOf(r.hold, r.bits));
      AtEnds(fed, Abs(), r.Rest());
      ghost var rest, next0, tail := r.Rest(), r.next, ByteBits(r.input[r.next..]);
      ghost var bound := 8 * (|r.input| - r.next) + 7;
      r.RestMod();
      put' := put;
      ghost var first := true;
      while true
        invariant Loose(AbsMode()) && mode == LEN && put <= put' && put' + 258 <= out.Length
        invariant hist + out[..put'] == output
        invariant r.input == old(r.input) && r.next + 6 <= |r.input|
        invariant if first then r.Rest() == rest else |r.Rest()| < |rest| && |r.Rest()| <= bound
        decreases |r.Rest()|
      {
        r.RestMod();
        put' := FastSymbol(out, put', hist);
        if first && 8 <= old(r.bits) {
          WaitConsumes(LENS, ll, BitsOf(old(r.hold), old(r.bits)), tail);
        }
        first := false;
        if mode != LEN || r.next + 6 > |r.input| || put' + 258 > out.Length {
          break;
        }
      }
      GiveBack(next0, rest, tail);
    }

    /** Return whole bytes from the accumulator to the input. */
    method GiveBack(ghost next0: nat, ghost rest: seq<bool>, ghost tail: seq<bool>)
      requires mode in {LEN, TYPEDO, BAD} && Loose(AbsMode()) && next0 <= |r.input|
      requires tail == ByteBits(r.input[next0..])
      requires EndsWith(rest, tail) && EndsWith(fed, rest) && |r.Rest()| <= 8 * (|r.input| - next0) + 7
      modifies r
      ensures Good() && r.Rest() == old(r.Rest())
    {
      hide Step, At, Serves, BitsOf, ByteBits, Low, Shr, Shl, Fixed, Good, Shape, Tight;
      r.RestMod();
      var k := r.bits / 8;
      AtEnds(fed, State(AbsMode(), last, ll, dl, output), r.Rest());
      EndsTrans(fed, rest, tail);
      Unused(fed, BitsOf(r.hold, r.bits), r.input, next0, r.next, k);
      BitsSplit(r.hold, r.bits - 8 * k, 8 * k);
      r.ReturnBytes(k);
      if mode == LEN {
        InTables();
      } else {
        Plain();
      }
    }

    // -------------------------------------------------------------- one call

    /** Between calls. */
    ghost predicate Ready()
      reads this, r, w
    {
      && w.Length == WSIZE && r.Valid() && (if ranOut then mode == BAD else Good())
      && (wsize != 0 || (mode != DONE && mode != BAD) ==> Window())
    }

    /** Within a call: `put` bytes are output behind `hist`. */
    ghost predicate Running(out: array<nat>, put: nat, hist: seq<nat>)
      reads this, r, w, out
    {
      && out != w && w.Length == WSIZE && r.Valid() && (if ranOut then mode == BAD else Good())
      && put <= out.Length && hist + out[..put] == output
      && (mode == DONE || mode == BAD || Holds(w[..], wnext, whave, hist))
    }

    /** Nothing more to do: the stream has ended, or input or room is missing. */
    ghost predicate Stopped(out: array<nat>, put: nat)
      requires r.next <= |r.input|
      reads this, r
    {
      mode == DONE || mode == BAD || Waiting() || (put == out.Length && Wants(Abs()))
    }

    /** Less input is left, or less room, or the mode ranks lower. */
    twostate predicate Ahead(out: array<nat>, new put: nat, new put': nat)
      reads this, r
      requires old(r.next) <= |old(r.input)| && r.next <= |r.input|
    {
      || |r.Rest()| < |old(r.Rest())|
      || (|r.Rest()| == |old(r.Rest())| && put' > put)
      || (|r.Rest()| == |old(r.Rest())| && put' == put && ModeRank(mode) < ModeRank(old(mode)))
    }

    /** The modes that read block headers and code lengths. */
    method HeaderStep() returns (go: bool)
      requires Good() && !ranOut && mode in {TYPEDO, STORED, TABLE, LENLENS, CODELENS}
      modifies r, this`mode, this`last, this`lencode, this`lenbits, this`distcode, this`distbits, this`ll, this`dl,
               this`length, this`nlen, this`ndist, this`ncode, this`have, this`got, this`lens, this`cl, this`ranOut
      ensures r.Valid() && (if ranOut then mode == BAD else Good())
      ensures !go ==> Waiting()
      ensures go ==>
        |r.Rest()| < |old(r.Rest())| || (|r.Rest()| == |old(r.Rest())| && ModeRank(mode) < ModeRank(old(mode)))
    {
      hide Step, At, Serves, BitsOf, ByteBits, Good, Shape, Abs;
      Facts();
      match mode {
        case TYPEDO => go := DoType();
        case STORED => go := DoStored();
        case TABLE => go := DoTable();
        case LENLENS => go := DoLenLens();
        case CODELENS =>
          CodeLensFacts();
          if have < nlen + ndist {
            go := ReadLength();
          } else {
            BlockTables();
            go := true;
          }
      }
      if !ranOut { Facts(); }
    }

    /** The modes that read symbols. */
    method SymbolStep() returns (go: bool)
      requires Good() && mode in {LEN, LENEXT, DIST, DISTEXT}
      modifies r, this`mode, this`length, this`extra, this`offset
      ensures Good() && r.Valid() && (!go ==> Waiting())
      ensures go ==>
        |r.Rest()| < |old(r.Rest())| || (|r.Rest()| == |old(r.Rest())| && ModeRank(mode) < ModeRank(old(mode)))
    {
      hide Step, At, Serves, BitsOf, ByteBits, Good, Shape, Abs;
      Facts();
      match mode {
        case LEN => go := DoLen();
        case LENEXT => go := DoLenExt();
        case DIST => go := DoDist();
        case DISTEXT => go := DoDistExt();
      }
      Facts();
    }

    /** The modes that write output, one piece at a time or in `inflate_fast`. */
    method OutputStep(out: array<nat>, put: nat, ghost hist: seq<nat>) returns (go: bool, put': nat)
      requires Running(out, put, hist) && !ranOut
      requires mode in {COPY, MATCH, LIT} || (mode == LEN && |r.input| - r.next >= 6 && out.Length - put >= 258)
      modifies r, out, this`mode, this`length, this`output
      ensures Running(out, put', hist) && put <= put'
      ensures !go ==> Stopped(out, put')
      ensures go ==> Ahead(out, put, put')
    {
      hide Step, At, Serves, BitsOf, ByteBits, Good, Shape, Holds;
      Facts();
      match mode {
        case COPY => go, put' := DoCopy(out, put, hist);
        case MATCH => go, put' := DoMatch(out, put, hist);
        case LIT => go, put' := DoLit(out, put, hist);
        case LEN =>
          go := true;
          put' := InflateFast(out, put, hist);
      }
      Facts();
    }

    /** One turn of the state machine. */
    method OneStep(out: array<nat>, put: nat, ghost hist: seq<nat>) returns (go: bool, put': nat)
      requires Running(out, put, hist)
      modifies r, out, this`mode, this`last, this`lencode, this`lenbits, this`distcode, this`distbits, this`ll, this`dl,
               this`length, this`nlen, this`ndist, this`ncode, this`have, this`got, this`lens, this`cl, this`ranOut,
               this`extra, this`offset, this`output
      ensures Running(out, put', hist) && put <= put'
      ensures !go ==> Stopped(out, put')
      ensures go ==> Ahead(out, put, put')
      ensures old(ranOut) ==> ranOut
    {
      hide Step, At, Serves, BitsOf, ByteBits, Good, Shape, Holds;
      if mode == DONE || mode == BAD {
        return false, put;
      }
      Facts();
      put' := put;
      if mode in {COPY, MATCH, LIT} || (mode == LEN && |r.input| - r.next >= 6 && out.Length - put >= 258) {
        go, put' := OutputStep(out, put, hist);
      } else if mode in {LEN, LENEXT, DIST, DISTEXT} {
        go := SymbolStep();
      } else {
        go := HeaderStep();
      }
      if !ranOut { Facts(); }
    }

    /** More input behind what is left. */
    method TakeInput(chunk: seq<nat>)
      requires Ready() && forall i :: 0 <= i < |chunk| ==> chunk[i] < 256
      modifies r, this`fed
      ensures Ready() && fed == old(fed) + ByteBits(chunk) && r.Unread() == old(r.Unread()) + |chunk|
    {
      hide Step, At, Serves, BitsOf, ByteBits, Holds;
      ghost var s, rest := Abs(), r.Rest();
      if !ranOut {
        ByteBitsLength(chunk);
        AtFeed(fed, s, rest, ByteBits(chunk));
      }
      r.Feed(chunk);
      fed := fed + ByteBits(chunk);
    }

    /** `inflate` on more input `chunk` and the output buffer `out`: what is decoded, and how
        far, is what the reference decoder says of all input so far, as long as room for
        output lasts. */
    method Inflate(chunk: seq<nat>, out: array<nat>, finish: bool) returns (ret: int, put: nat)
      requires Ready() && out != w && forall i :: 0 <= i < |chunk| ==> chunk[i] < 256
      modifies r, w, out, this
      ensures Ready() && put <= out.Length && fed == old(fed) + ByteBits(chunk) && output == old(output) + out[..put]
      ensures !ranOut ==> At(fed, Abs(), r.Rest()) && Settled(Abs(), r.Rest(), |old(output)| + out.Length)
      ensures ret == Z_STREAM_END <==> mode == DONE
      ensures ret == Z_DATA_ERROR <==> mode == BAD
      ensures ret == Z_BUF_ERROR <==>
        mode != DONE && mode != BAD && (finish || (put == 0 && r.Unread() == old(r.Unread()) + |chunk|))
      ensures ret in {Z_OK, Z_STREAM_END, Z_DATA_ERROR, Z_BUF_ERROR}
      ensures old(ranOut) ==> ranOut
    {
      hide Step, At, Serves, BitsOf, ByteBits, Holds, Good, Shape, Tight, AbsMode, Settled;
      TakeInput(chunk);
      ghost var hist := output;
      var start := r.Unread();
      assert hist + out[..0] == hist;
      put := Machine(out, hist);
      WhereStopped(out, put, hist);
      ghost var s := Abs();
      SaveWindow(out, put, hist);
      assert out[..put] == out[..][..put];
      ret := if mode == DONE then Z_STREAM_END else if mode == BAD then Z_DATA_ERROR else Z_OK;
      if ((r.Unread() == start && put == 0) || finish) && ret == Z_OK {
        ret := Z_BUF_ERROR;
      }
    }

    /** The state machine runs as long as it can. */
    method Machine(out: array<nat>, ghost hist: seq<nat>) returns (put: nat)
      requires Running(out, 0, hist)
      modifies r, out, this`mode, this`last, this`lencode, this`lenbits, this`distcode, this`distbits, this`ll, this`dl,
               this`length, this`nlen, this`ndist, this`ncode, this`have, this`got, this`lens, this`cl, this`ranOut,
               this`extra, this`offset, this`output
      ensures Running(out, put, hist) && Stopped(out, put)
      ensures old(ranOut) ==> ranOut
    {
      hide Step, At, Serves, BitsOf, ByteBits, Holds, Good, Shape, Tight, Abs;
      put := 0;
      var go := true;
      while true
        invariant Running(out, put, hist) && (old(ranOut) ==> ranOut)
        decreases |r.Rest()|, out.Length - put, ModeRank(mode)
      {
        go, put := OneStep(out, put, hist);
        if !go {
          break;
        }
      }
    }

    /** Where the state machine stops, the reference decoder can do no more. */
    lemma WhereStopped(out: array<nat>, put: nat, hist: seq<nat>)
      requires Running(out, put, hist) && Stopped(out, put)
      ensures !ranOut ==> At(fed, Abs(), r.Rest()) && Settled(Abs(), r.Rest(), |hist| + out.Length)
    {
      if mode == DONE || mode == BAD {
        assert Step(Abs(), r.Rest()) == Stuck;
      }
      hide Step, At, Serves, BitsOf, ByteBits, Holds;
    }

    /** The end of a call: keep the end of the output, unless nothing will need it. */
    method SaveWindow(out: array<nat>, put: nat, ghost hist: seq<nat>)
      requires Running(out, put, hist) && (wsize != 0 ==> Holds(w[..], wnext, whave, hist))
      modifies w, this`wsize, this`wnext, this`whave
      ensures Ready() && out[..] == old(out[..]) && Abs() == old(Abs())
    {
      hide Step, At, Serves, BitsOf, ByteBits, Holds, Good, Abs;
      if wsize != 0 || (mode != DONE && mode != BAD && put != 0) {
        wsize := WSIZE;
        wnext, whave := UpdateWindow(w, wnext, whave, out[..put], hist);
      } else {
        assert put == 0 ==> hist + out[..put] == hist;
      }
      Unmoved();
    }

    /** Only the window has changed. */
    twostate lemma Unmoved()
      requires unchanged(r)
      requires mode == old(mode) && last == old(last) && length == old(length) && offset == old(offset)
      requires extra == old(extra) && nlen == old(nlen) && ndist == old(ndist) && ncode == old(ncode)
      requires have == old(have) && lens == old(lens) && lencode == old(lencode) && lenbits == old(lenbits)
      requires distcode == old(distcode) && distbits == old(distbits) && fed == old(fed) && output == old(output)
      requires ll == old(ll) && dl == old(dl) && cl == old(cl) && got == old(got)
      ensures Abs() == old(Abs()) && (old(Good()) ==> Good())
    {
      hide Step, At, Serves, BitsOf, ByteBits;
    }
  }

  /** All bytes of several pieces. */
  function Joined(chunks: seq<seq<nat>>): seq<nat> {
    if |chunks| == 0 then [] else Joined(chunks[..|chunks| - 1]) + chunks[|chunks| - 1]
  }

  ghost predicate Bytes(chunk: seq<nat>) {
    forall i :: 0 <= i < |chunk| ==> chunk[i] < 256
  }

  /** The room that calls `m` to `n` offer. */
  function Total(rooms: seq<nat>, m: nat, n: nat): nat
    requires n <= |rooms|
  {
    if n <= m then 0 else Total(rooms, m, n - 1) + rooms[n - 1]
  }

  /** Nothing comes after piece `m`. */
  lemma {:induction false} NoMore(chunks: seq<seq<nat>>, m: nat, n: nat)
    requires m < n <= |chunks| && forall k :: m < k < |chunks| ==> chunks[k] == []
    ensures Joined(chunks[..n]) == Joined(chunks[..m + 1])
  {
    if m + 1 < n {
      assert chunks[..n][..n - 1] == chunks[..n - 1];
      NoMore(chunks, m, n - 1);
    }
  }

  /** The piece with the last of the input. */
  function FinalPiece(chunks: seq<seq<nat>>): (m: nat)
    ensures forall k :: m < k < |chunks| ==> chunks[k] == []
  {
    var n := |chunks|;
    if n <= 1 then 0 else if chunks[n - 1] != [] then n - 1 else FinalPiece(chunks[..n - 1])
  }

  /** All input is in by the end of call `i`. */
  lemma AllIn(chunks: seq<seq<nat>>, m: nat, i: nat)
    requires m <= i < |chunks| && forall k :: m < k < |chunks| ==> chunks[k] == []
    ensures Joined(chunks[..i + 1]) == Joined(chunks)
  {
    assert chunks[..|chunks|] == chunks;
    NoMore(chunks, m, i + 1);
    NoMore(chunks, m, |chunks|);
  }

  /** A whole run: one call for every piece of input, with room for `rooms[i]` bytes in the
      i-th, of which `spare` are left in the last. The run stands where the reference decoder
      can go no further on the joined input. If the calls from the one that brings the last
      of the input on have room for all the data of a complete stream, the run has decoded
      that stream to its end. */
  method InflateCalls(chunks: seq<seq<nat>>, rooms: seq<nat>) returns (z: Inflater, result: seq<nat>, spare: nat)
    requires |chunks| == |rooms| && forall i :: 0 <= i < |chunks| ==> Bytes(chunks[i])
    ensures z.Ready() && z.output == result && z.fed == ByteBits(Joined(chunks))
    ensures |chunks| != 0 ==> spare <= rooms[|rooms| - 1] <= |result| + spare
    ensures |chunks| != 0 && !z.ranOut ==>
      At(z.fed, z.Abs(), z.r.Rest()) && Settled(z.Abs(), z.r.Rest(), |result| + spare)
    ensures |chunks| != 0 && !z.ranOut ==>
      ToTheEnd(z.fed, z.Abs(), z.r.Rest(), Total(rooms, FinalPiece(chunks), |rooms|))
  {
    z := new Inflater();
    ghost var m := FinalPiece(chunks);
    ghost var all := ByteBits(Joined(chunks));
    hide Step, At, Serves, BitsOf, ByteBits, Holds, Settled, Finishes, ToTheEnd, FinalPiece;
    result, spare := [], 0;
    EmptyBytes();
    FinishesNone(all, z.Abs());
    for i := 0 to |chunks|
      invariant z.Ready() && fresh(z) && fresh(z.r) && fresh(z.w) && z.output == result
      invariant z.fed == ByteBits(Joined(chunks[..i]))
      invariant i != 0 ==> spare <= rooms[i - 1] <= |result| + spare
      invariant i != 0 && !z.ranOut ==> At(z.fed, z.Abs(), z.r.Rest()) && Settled(z.Abs(), z.r.Rest(), |result| + spare)
      invariant !z.ranOut ==> Finishes(all, z.Abs(), Total(rooms, m, i))
    {
      ghost var s := z.Abs();
      var bytes := NextCall(z, chunks[..i], chunks[i], rooms[i]);
      result, spare := result + bytes, rooms[i] - |bytes|;
      assert chunks[..i + 1][..i] == chunks[..i];
      if i < m {
        FinishesNone(all, z.Abs());
      } else if !z.ranOut {
        AllIn(chunks, m, i);
        FinishesMore(all, s, z.Abs(), z.r.Rest(), Total(rooms, m, i), rooms[i]);
      }
    }
    assert chunks[..|chunks|] == chunks;
    if |chunks| != 0 && !z.ranOut {
      AllFinished(z.fed, z.Abs(), z.r.Rest(), Total(rooms, m, |rooms|), |result| + spare);
    }
  }

  /** One call with a buffer of its own. */
  method NextCall(z: Inflater, ghost before: seq<seq<nat>>, chunk: seq<nat>, room: nat) returns (bytes: seq<nat>)
    requires z.Ready() && Bytes(chunk) && z.fed == ByteBits(Joined(before))
    modifies z, z.r, z.w
    ensures z.Ready() && |bytes| <= room && z.output == old(z.output) + bytes
    ensures z.fed == ByteBits(Joined(before) + chunk)
    ensures !z.ranOut ==> At(z.fed, z.Abs(), z.r.Rest()) && Settled(z.Abs(), z.r.Rest(), |old(z.output)| + room)
    ensures old(z.ranOut) ==> z.ranOut
  {
    hide Step, At, Serves, BitsOf, ByteBits, Holds, Settled;
    var out := new nat[room];
    ByteBitsAppend(Joined(before), chunk);
    var ret, put := z.Inflate(chunk, out, false);
    bytes := out[..put];
  }

  lemma EmptyBytes()
    ensures ByteBits(Joined([])) == []
  {
  }

  /** Two runs over the same input, split into calls in any two ways: one output is a prefix
      of the other, and if both have room left, or are equally long, they agree and stop at
      the same bit. */
  method SplitIndependence(chunks: seq<seq<nat>>, rooms: seq<nat>, chunks': seq<seq<nat>>, rooms': seq<nat>)
    returns (a: Inflater, x: seq<nat>, spare: nat, b: Inflater, y: seq<nat>, spare': nat)
    requires 0 < |chunks| == |rooms| && forall i :: 0 <= i < |chunks| ==> Bytes(chunks[i])
    requires 0 < |chunks'| == |rooms'| && forall i :: 0 <= i < |chunks'| ==> Bytes(chunks'[i])
    requires Joined(chunks) == Joined(chunks')
    ensures a.Ready() && b.Ready() && a.output == x && b.output == y
    ensures !a.ranOut && !b.ranOut ==> x <= y || y <= x
    ensures !a.ranOut && !b.ranOut && (|x| == |y| || (0 < spare && 0 < spare')) ==> x == y && a.r.Rest() == b.r.Rest()
  {
    hide Step, At, Serves, BitsOf, ByteBits, Holds, Settled, ToTheEnd, FinalPiece;
    a, x, spare := InflateCalls(chunks, rooms);
    b, y, spare' := InflateCalls(chunks', rooms');
    if !a.ranOut && !b.ranOut {
      TwoStates(a.fed, a.Abs(), a.r.Rest(), |x| + spare, b.Abs(), b.r.Rest(), |y| + spare');
    }
  }

  lemma RunOf(lens: seq<nat>, lo: nat, hi: nat, v: nat)
    requires lo <= hi <= |lens| && forall i :: lo <= i < hi ==> lens[i] == v
    ensures lens[lo..hi] == Repeat(v, hi - lo)
  {
    var a, b := lens[lo..hi], Repeat(v, hi - lo);
    forall i | 0 <= i < hi - lo
      ensures a[i] == b[i]
    {
      assert a[i] == lens[lo + i];
    }
  }

  lemma AtEnds(fed: seq<bool>, s: State, rest: seq<bool>)
    requires At(fed, s, rest)
    ensures EndsWith(fed, rest)
  {
  }

  lemma EndsTrans(a: seq<bool>, b: seq<bool>, c: seq<bool>)
    requires EndsWith(a, b) && EndsWith(b, c)
    ensures EndsWith(a, c)
  {
    assert a[|a| - |c|..] == a[|a| - |b|..][|b| - |c|..];
  }

  /** What an entry means, by the bits of its operation. */
  lemma LenModes(here: Code)
    requires Has16(here.op) <==> LenMode(here).LenExt?
    requires Has32(here.op) ==> Has64(here.op)
    ensures here.op == 0 ==> LenMode(here) == Lit(here.val) && !Has16(here.op)
    ensures here.op != 0 && Has16(here.op) ==> LenMode(here) == LenExt(here.val, here.op % 16)
    ensures here.op != 0 && !Has16(here.op) && Has32(here.op) ==> LenMode(here) == Type
    ensures here.op != 0 && !Has16(here.op) && !Has32(here.op) ==> LenMode(here) == Bad
  {
  }

  lemma DistModes(here: Code, len: nat)
    requires Has16(here.op) <==> DistMode(here, len).DistExt?
    ensures Has16(here.op) ==> DistMode(here, len) == DistExt(len, here.val, here.op % 16)
    ensures !Has16(here.op) ==> DistMode(here, len) == Bad
  {
  }

  lemma CodeExtra(length: nat, extra: nat)
    requires LenCode(length, extra)
    ensures extra <= 5
  {
  }

  lemma LengthBound(length: nat, extra: nat)
    requires LenCode(length, extra)
    ensures 3 <= length && length + Pow2(extra) <= 259
  {
  }

  lemma DistBound(dist: nat, extra: nat)
    requires DistCode(dist, extra)
    ensures extra <= 13 && 1 <= dist && dist + Pow2(extra) <= WSIZE + 1
  {
  }

  /** One byte of output. */
  method OneByte(out: array<nat>, put: nat, b: nat, ghost hist: seq<nat>)
    requires put < out.Length
    modifies out
    ensures hist + out[..put + 1] == hist + old(out[..put]) + [b]
  {
    ghost var was := out[..put];
    out[put] := b;
    assert out[..put + 1] == was + [b];
  }

  /** Bytes of the input go to the output. */
  method CopyInput(out: array<nat>, put: nat, input: seq<nat>, next: nat, copy: nat, ghost hist: seq<nat>,
                   ghost output: seq<nat>)
    requires put + copy <= out.Length && next + copy <= |input| && hist + out[..put] == output
    modifies out
    ensures hist + out[..put + copy] == output + input[next..next + copy]
  {
    ghost var was: seq<nat> := out[..put];
    Memcpy(out, put, input, next, copy);
    assert out[..put + copy] == was + input[next..next + copy];
  }

  /** Table entries of the code length code. */
  lemma LengthEntry(f: Found, here: Code)
    requires f.Symbol? ==> f.sym < 19 && here.(bits := 0) == SymbolEntry(CODES, f.sym, 0)
    requires f.Invalid? ==> here == Code(INVALID_OP, 1, 0)
    ensures f != Wait ==> here.val == LengthSymbol(f) <= 18
  {
  }

  lemma SymbolWidth(ty: CodeType, lens: seq<nat>, rest: seq<bool>)
    ensures var f := SymbolAt(ty, lens, rest); f != Wait ==> 1 <= FoundBits(lens, f)
  {
  }

  lemma ExactWord(bits: nat)
    requires 32 <= bits <= 39 && bits % 8 == 0
    ensures bits == 32
  {
  }

  lemma NoRepeat(got: seq<nat>)
    ensures got + Repeat(0, 0) == got
  {
  }

  lemma OneMoreZero(got: seq<nat>, n: nat)
    requires 0 < n
    ensures got + Repeat(0, n - 1) + [0] == got + Repeat(0, n)
  {
    RepeatMore(0, n - 1);
  }

}

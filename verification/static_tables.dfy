/** The constant tables that map match lengths and distances to codes, built by
    `tr_static_init` of lib/libgz/trees.c, and their agreement with the base and extra-bit
    tables of the decoder (section 3.2.5 of RFC 1951). */
module StaticTables {
  import opened Bits
  import opened InflateTable

  const LENGTH_CODES: nat := 29
  const D_CODES: nat := 30

  const EXTRA_LBITS: seq<nat> := [
    0, 0, 0, 0, 0, 0, 0, 0, 1, 1, 1, 1, 2, 2, 2, 2, 3, 3, 3, 3, 4, 4, 4, 4, 5, 5, 5, 5, 0]
  const EXTRA_DBITS: seq<nat> := [
    0, 0, 0, 0, 1, 1, 2, 2, 3, 3, 4, 4, 5, 5, 6, 6, 7, 7, 8, 8, 9, 9, 10, 10, 11, 11, 12, 12, 13, 13]

  /** A value's extra bits relative to the base of its code; codes without extra bits carry none. */
  function Extra(x: nat, base: nat, bits: nat): int {
    if bits == 0 then 0 else x - base
  }

  /** Code and extra bits of a match length tell the decoder that length. */
  ghost predicate LengthAgrees(lengthCode: seq<nat>, baseLength: seq<nat>, lc: nat)
    requires |lengthCode| == 256 && |baseLength| == LENGTH_CODES && lc < 256
  {
    var c := lengthCode[lc];
    && c < LENGTH_CODES
    && var x := Extra(lc, baseLength[c], EXTRA_LBITS[c]);
       0 <= x < Pow2(EXTRA_LBITS[c]) && LBASE[c] + x == lc + 3
  }

  /** `d_code`: the code of a distance minus one. */
  function DCode(distCode: seq<nat>, d: nat): nat
    requires |distCode| == 512 && d < 32768
  {
    if d < 256 then distCode[d] else distCode[256 + d / 128]
  }

  ghost predicate DistAgrees(distCode: seq<nat>, baseDist: seq<nat>, d: nat)
    requires |distCode| == 512 && |baseDist| == D_CODES && d < 32768
  {
    var c := DCode(distCode, d);
    && c < D_CODES
    && var x := Extra(d, baseDist[c], EXTRA_DBITS[c]);
       0 <= x < Pow2(EXTRA_DBITS[c]) && DBASE[c] + x == d + 1
  }

  ghost predicate LengthTables(lengthCode: seq<nat>, baseLength: seq<nat>) {
    && |lengthCode| == 256 && |baseLength| == LENGTH_CODES
    && forall lc :: 0 <= lc < 256 ==> LengthAgrees(lengthCode, baseLength, lc)
  }

  ghost predicate DistTables(distCode: seq<nat>, baseDist: seq<nat>) {
    && |distCode| == 512 && |baseDist| == D_CODES
    && forall d :: 0 <= d < 32768 ==> DistAgrees(distCode, baseDist, d)
  }

  /** The decoder's extra-bit tables are the encoder's, offset by the operation flag. */
  lemma LengthExtraAgrees(c: nat)
    requires c < LENGTH_CODES
    ensures LEXT[c] == 16 + EXTRA_LBITS[c] && EXTRA_LBITS[c] <= 5
  {
  }

  lemma DistExtraAgrees(c: nat)
    requires c < D_CODES
    ensures DEXT[c] == 16 + EXTRA_DBITS[c] && EXTRA_DBITS[c] <= 13
    ensures 16 <= c ==> 7 <= EXTRA_DBITS[c]
  {
  }

  /** How many lengths share code `c`. */
  function LengthSize(c: nat): nat
    requires c < LENGTH_CODES
  {
    Pow2(EXTRA_LBITS[c])
  }

  /** First length (minus three) of code `c`; 256 behind the last range. */
  ghost function LengthBase(c: nat): int
    requires c < LENGTH_CODES
  {
    if c == 28 then 256 else LBASE[c] - 3
  }

  function DistSize(c: nat): nat
    requires c < D_CODES
  {
    Pow2(EXTRA_DBITS[c])
  }

  /** The same in blocks of 128, for the large distances. */
  function DistSize128(c: nat): nat
    requires 16 <= c < D_CODES
  {
    DistExtraAgrees(c);
    Pow2(EXTRA_DBITS[c] - 7)
  }

  ghost function DistBase(c: nat): int
    requires c <= D_CODES
  {
    if c == D_CODES then 32768 else DBASE[c] - 1
  }

  /** Consecutive length codes cover consecutive ranges of lengths. */
  lemma LengthStep(c: nat)
    requires c < 28
    ensures LengthBase(c + 1) == LengthBase(c) + LengthSize(c) <= 256 && LengthBase(0) == 0
  {
    Powers();
    hide Shl;
  }

  lemma DistStep(c: nat)
    requires c < D_CODES
    ensures DistBase(c + 1) == DistBase(c) + DistSize(c) <= 32768
    ensures DistBase(0) == 0 && DistBase(16) == 256 && (c < 16 ==> DistBase(c + 1) <= 256)
  {
    Powers();
    hide Shl;
  }

  /** Length `lc` lies in the range of code `c`. */
  ghost predicate InLengthRange(c: nat, lc: nat) {
    c < 28 && LengthBase(c) <= lc < LengthBase(c) + LengthSize(c)
  }

  /** The first part of `tr_static_init`: length codes. */
  method InitLengths() returns (lengthCode: seq<nat>, baseLength: seq<nat>)
    ensures LengthTables(lengthCode, baseLength)
  {
    hide Shl, LengthAgrees, LengthBase, LengthSize;
    LengthStep(0);
    var lc := new nat[256](_ => 0);
    var bases := new nat[LENGTH_CODES](_ => 0);
    var length := 0;
    for code := 0 to LENGTH_CODES - 1
      invariant 0 <= length <= 256 && length == LengthBase(code)
      invariant forall c :: 0 <= c < code ==> bases[c] == LengthBase(c)
      invariant forall i :: 0 <= i < length ==> InLengthRange(lc[i], i)
    {
      LengthStep(code);
      bases[code] := length;
      ghost var first := length;
      var n := 0;
      while n < LengthSize(code)
        invariant 0 <= n <= LengthSize(code) && length == first + n
        invariant forall c :: 0 <= c <= code ==> bases[c] == LengthBase(c)
        invariant forall i :: 0 <= i < length ==> InLengthRange(lc[i], i)
      {
        lc[length] := code;
        length := length + 1;
        n := n + 1;
      }
    }
    LengthStep(27);
    EndOfLengths();
    lc[length - 1] := LENGTH_CODES - 1;
    lengthCode, baseLength := lc[..], bases[..];
    forall i | 0 <= i < 256
      ensures LengthAgrees(lengthCode, baseLength, i)
    {
      LengthEntryAgrees(lengthCode, baseLength, i);
    }
  }

  lemma EndOfLengths()
    ensures LengthBase(28) == 256 && DistBase(D_CODES) == 32768
  {
  }

  lemma LengthEntryAgrees(lengthCode: seq<nat>, baseLength: seq<nat>, lc: nat)
    requires |lengthCode| == 256 && |baseLength| == LENGTH_CODES && lc < 256
    requires lc == 255 ==> lengthCode[lc] == 28
    requires lc < 255 ==> InLengthRange(lengthCode[lc], lc)
    requires forall c :: 0 <= c < 28 ==> baseLength[c] == LengthBase(c)
    ensures LengthAgrees(lengthCode, baseLength, lc)
  {
    Powers();
    hide Shl;
  }

  ghost predicate InDistRange(c: nat, lo: nat, hi: nat) {
    c < D_CODES && DistBase(c) <= lo && hi <= DistBase(c) + DistSize(c)
  }

  /** The ranges of codes 16.. are whole blocks of 128 distances. */
  lemma DistBlocks(c: nat)
    requires 16 <= c < D_CODES
    ensures DistSize(c) == 128 * DistSize128(c)
  {
    Powers();
    DistExtraAgrees(c);
    hide Shl;
    var e := EXTRA_DBITS[c];
    assert e == 7 || e == 8 || e == 9 || e == 10 || e == 11 || e == 12 || e == 13;
  }

  /** The second part of `tr_static_init`: codes of the first 256 distances, one by one. */
  method InitShortDists(dc: array<nat>, bases: array<nat>)
    requires dc.Length == 512 && bases.Length == D_CODES && dc != bases
    modifies dc, bases
    ensures forall c :: 0 <= c < 16 ==> bases[c] == DistBase(c)
    ensures forall i :: 0 <= i < 256 ==> InDistRange(dc[i], i, i + 1)
  {
    hide Shl, DistBase, DistSize;
    DistStep(0);
    var dist := 0;
    for code := 0 to 16
      invariant 0 <= dist <= 256 && dist == DistBase(code)
      invariant forall c :: 0 <= c < code ==> bases[c] == DistBase(c)
      invariant forall i :: 0 <= i < dist ==> InDistRange(dc[i], i, i + 1)
    {
      DistStep(code);
      bases[code] := dist;
      ghost var first := dist;
      var n := 0;
      while n < DistSize(code)
        invariant 0 <= n <= DistSize(code) && dist == first + n
        invariant forall c :: 0 <= c <= code ==> bases[c] == DistBase(c)
        invariant forall i :: 0 <= i < dist ==> InDistRange(dc[i], i, i + 1)
      {
        dc[dist] := code;
        dist := dist + 1;
        n := n + 1;
      }
    }
    DistStep(15);
  }

  /** The third part: codes of larger distances, in blocks of 128. */
  method InitLongDists(dc: array<nat>, bases: array<nat>)
    requires dc.Length == 512 && bases.Length == D_CODES && dc != bases
    requires forall c :: 0 <= c < 16 ==> bases[c] == DistBase(c)
    requires forall i :: 0 <= i < 256 ==> InDistRange(dc[i], i, i + 1)
    modifies dc, bases
    ensures forall c :: 0 <= c < D_CODES ==> bases[c] == DistBase(c)
    ensures forall i :: 0 <= i < 256 ==> InDistRange(dc[i], i, i + 1)
    ensures forall j :: 2 <= j < 256 ==> InDistRange(dc[256 + j], 128 * j, 128 * j + 128)
  {
    hide Shl, DistBase, DistSize, DistSize128;
    DistStep(0);
    var dist := 256 / 128;
    for code := 16 to D_CODES
      invariant 2 <= dist <= 256 && dist * 128 == DistBase(code)
      invariant forall c :: 0 <= c < code ==> bases[c] == DistBase(c)
      invariant forall i :: 0 <= i < 256 ==> InDistRange(dc[i], i, i + 1)
      invariant forall j :: 2 <= j < dist ==> InDistRange(dc[256 + j], 128 * j, 128 * j + 128)
    {
      DistStep(code);
      DistBlocks(code);
      bases[code] := dist * 128;
      ghost var first := dist;
      var n := 0;
      while n < DistSize128(code)
        invariant 0 <= n <= DistSize128(code) && dist == first + n
        invariant forall c :: 0 <= c <= code ==> bases[c] == DistBase(c)
        invariant forall i :: 0 <= i < 256 ==> InDistRange(dc[i], i, i + 1)
        invariant forall j :: 2 <= j < dist ==> InDistRange(dc[256 + j], 128 * j, 128 * j + 128)
      {
        dc[256 + dist] := code;
        dist := dist + 1;
        n := n + 1;
      }
    }
    EndOfLengths();
  }

  method InitDists() returns (distCode: seq<nat>, baseDist: seq<nat>)
    ensures DistTables(distCode, baseDist)
  {
    hide Shl, DistAgrees, InDistRange, DistBase;
    var dc := new nat[512](_ => 0);
    var bases := new nat[D_CODES](_ => 0);
    InitShortDists(dc, bases);
    InitLongDists(dc, bases);
    distCode, baseDist := dc[..], bases[..];
    forall d | 0 <= d < 32768
      ensures DistAgrees(distCode, baseDist, d)
    {
      var j := d / 128;
      if d >= 256 {
        assert InDistRange(dc[256 + j], 128 * j, 128 * j + 128);
      }
      DistEntryAgrees(distCode, baseDist, d);
    }
  }

  lemma DistEntryAgrees(distCode: seq<nat>, baseDist: seq<nat>, d: nat)
    requires |distCode| == 512 && |baseDist| == D_CODES && d < 32768
    requires forall c :: 0 <= c < D_CODES ==> baseDist[c] == DistBase(c)
    requires d < 256 ==> InDistRange(distCode[d], d, d + 1)
    requires 256 <= d ==> InDistRange(distCode[256 + d / 128], 128 * (d / 128), 128 * (d / 128) + 128)
    ensures DistAgrees(distCode, baseDist, d)
  {
    Powers();
    hide Shl;
  }
}

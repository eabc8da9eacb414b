/** What the text of a JSON string means (section 7 of RFC 8259), for every text and not only
    for dumped ones: `lex_scan_string` decodes a text to a string if and only if the text
    spells that string. */
module JsonSpelling {
  import opened Common
  import opened Utf8
  import opened JsonString

  // ---------------------------------------------------------------- spelling

  /** The digits, by their value. */
  const LOWER: string := "0123456789abcdef"
  const UPPER: string := "0123456789ABCDEF"

  predicate DigitIs(c: nat, v: nat) {
    v < 16 && (c == LOWER[v] as int || c == UPPER[v] as int)
  }

  /** Four hexadecimal digits, in either case, with value `v`. */
  ghost predicate DigitsAre(t: Bytes, v: nat) {
    && |t| == 4
    && exists a: nat, b: nat, c: nat, d: nat ::
      && DigitIs(t[0], a) && DigitIs(t[1], b) && DigitIs(t[2], c) && DigitIs(t[3], d)
      && v == 4096 * a + 256 * b + 16 * c + d
  }

  /** The letter behind a backslash that stands for character `c`. */
  predicate EscapeFor(e: nat, c: nat) {
    || (e == '"' as int == c) || (e == '\\' as int == c) || (e == '/' as int == c)
    || (e == 'b' as int && c == 0x08) || (e == 'f' as int && c == 0x0C) || (e == 'n' as int && c == 0x0A)
    || (e == 'r' as int && c == 0x0D) || (e == 't' as int && c == 0x09)
  }

  predicate IsU(t: Bytes, at: nat) {
    at + 6 <= |t| && t[at] == '\\' as int && t[at + 1] == 'u' as int
  }

  ghost predicate ByNumber(t: Bytes, c: nat) {
    |t| == 6 && IsU(t, 0) && DigitsAre(t[2..6], c) && Scalar(c)
  }

  ghost predicate ByPair(t: Bytes, c: nat) {
    && |t| == 12 && IsU(t, 0) && IsU(t, 6)
    && exists h: nat, l: nat ::
      && DigitsAre(t[2..6], h) && DigitsAre(t[8..12], l) && 0xD800 <= h < 0xDC00 && 0xDC00 <= l < 0xE000
      && c == 0x10000 + 0x400 * (h - 0xD800) + (l - 0xDC00)
  }

  /** `t` spells the code point `c`: as it is, by a letter, by its number, or by the two halves
      of a surrogate pair. */
  ghost predicate Spelled(t: Bytes, c: nat) {
    || (Scalar(c) && 0x20 <= c && c != '"' as int && c != '\\' as int && t == Encode(c))
    || (|t| == 2 && t[0] == '\\' as int && EscapeFor(t[1], c))
    || ByNumber(t, c)
    || ByPair(t, c)
  }

  /** `p` spells the code points `cs`, one after the other. */
  ghost predicate Spells(p: Bytes, cs: seq<nat>)
    decreases |cs|
  {
    if |cs| == 0 then p == []
    else exists n: nat :: n <= |p| && Spelled(p[..n], cs[0]) && Spells(p[n..], cs[1..])
  }

  /** The UTF-8 text of the code points. */
  function EncodeAll(cs: seq<nat>): Bytes
    requires forall i :: 0 <= i < |cs| ==> Scalar(cs[i])
    decreases |cs|
  {
    if |cs| == 0 then []
    else
      assert Scalar(cs[0]);
      Encode(cs[0]) + EncodeAll(cs[1..])
  }

  /** `p` spells the string `x`. */
  ghost predicate Means(p: Bytes, x: Bytes) {
    exists cs: seq<nat> ::
      Spells(p, cs) && (forall i :: 0 <= i < |cs| ==> Scalar(cs[i])) && x == EncodeAll(cs)
  }

  // ---------------------------------------------------------------- digits

  lemma DigitMeans(c: nat, v: nat)
    ensures DigitIs(c, v) <==> IsHex(c) && HexValue(c) == v
  {
    DigitTable(v);
    hide LOWER, UPPER;
  }

  lemma DigitTable(v: nat)
    ensures |LOWER| == 16 && |UPPER| == 16
    ensures v < 16 ==> LOWER[v] as int == if v < 10 then 48 + v else 87 + v
    ensures v < 16 ==> UPPER[v] as int == if v < 10 then 48 + v else 55 + v
  {
  }

  lemma DigitsMean(t: Bytes, v: nat)
    ensures DigitsAre(t, v) <==> |t| == 4 && FourHex(t, 0) && Unhex(t, 0) == v
  {
    hide DigitIs, HexValue, IsHex;
    if |t| == 4 {
      forall i, w: nat | 0 <= i < 4
        ensures DigitIs(t[i], w) <==> IsHex(t[i]) && HexValue(t[i]) == w
      {
        DigitMeans(t[i], w);
      }
      if FourHex(t, 0) {
        var a, b, c, d := HexValue(t[0]), HexValue(t[1]), HexValue(t[2]), HexValue(t[3]);
        assert DigitIs(t[0], a) && DigitIs(t[1], b) && DigitIs(t[2], c) && DigitIs(t[3], d);
        assert Unhex(t, 0) == 4096 * a + 256 * b + 16 * c + d;
      }
      if DigitsAre(t, v) {
        var a: nat, b: nat, c: nat, d: nat :|
          && DigitIs(t[0], a) && DigitIs(t[1], b) && DigitIs(t[2], c) && DigitIs(t[3], d)
          && v == 4096 * a + 256 * b + 16 * c + d;
      }
    }
  }

  /** The same inside a longer text. */
  lemma DigitsInside(s: Bytes, at: nat, v: nat)
    requires at + 4 <= |s|
    ensures DigitsAre(s[at..at + 4], v) <==> FourHex(s, at) && Unhex(s, at) == v
  {
    var t := s[at..at + 4];
    DigitsMean(t, v);
    assert t[0] == s[at] && t[1] == s[at + 1] && t[2] == s[at + 2] && t[3] == s[at + 3];
    hide HexValue, IsHex, DigitsAre;
  }

  lemma EscapeMeans(e: nat, c: nat)
    ensures EscapeFor(e, c) <==> SimpleEscape(e) && SimpleValue(e) == c
    ensures EscapeFor(e, c) ==> Scalar(c) && Encode(c) == [c] && e != LETTER_U
  {
  }

  // ---------------------------------------------------------------- a spelling is read

  /** One code point off the front. */
  lemma SpelledReads(t: Bytes, c: nat, tail: Bytes)
    requires Spelled(t, c)
    ensures Scalar(c) && 0 < |t|
    ensures Scan(t + tail) == Longer(|t|, Scan(tail)) && Decode(t + tail) == Prepend(Encode(c), Decode(tail))
  {
    hide Scan, Decode, Encode, DigitsAre, EscapeFor;
    var s := t + tail;
    if Scalar(c) && 0x20 <= c && c != QUOTE && c != BACKSLASH && t == Encode(c) {
      EncodeRaw(c);
      RawRun(Encode(c), tail);
    } else if |t| == 2 && t[0] == BACKSLASH && EscapeFor(t[1], c) {
      EscapeMeans(t[1], c);
      assert t == [BACKSLASH, t[1]];
      ScanSimple(t[1], tail);
    } else if ByNumber(t, c) {
      DigitsInside(t, 2, c);
      NumberReads(t, c, tail);
    } else {
      var h: nat, l: nat :|
        && DigitsAre(t[2..6], h) && DigitsAre(t[8..12], l) && 0xD800 <= h < 0xDC00 && 0xDC00 <= l < 0xE000
        && c == 0x10000 + 0x400 * (h - 0xD800) + (l - 0xDC00);
      DigitsInside(t, 2, h);
      DigitsInside(t, 8, l);
      PairReads(t, h, l, c, tail);
    }
  }

  lemma FrontDigits(t: Bytes, tail: Bytes, at: nat)
    requires FourHex(t, at)
    ensures FourHex(t + tail, at) && Unhex(t + tail, at) == Unhex(t, at)
  {
    hide HexValue, IsHex;
    var s := t + tail;
    assert s[at] == t[at] && s[at + 1] == t[at + 1] && s[at + 2] == t[at + 2] && s[at + 3] == t[at + 3];
  }

  lemma NumberReads(t: Bytes, v: nat, tail: Bytes)
    requires |t| == 6 && t[0] == BACKSLASH && t[1] == LETTER_U && FourHex(t, 2) && Unhex(t, 2) == v
    ensures Scan(t + tail) == Longer(6, Scan(tail))
    ensures Scalar(v) ==> Decode(t + tail) == Prepend(Encode(v), Decode(tail))
  {
    var s := t + tail;
    FrontDigits(t, tail, 2);
    assert s[0] == BACKSLASH && s[1] == LETTER_U && s[6..] == tail;
    hide Encode, Unhex, FourHex;
  }

  lemma PairReads(t: Bytes, h: nat, l: nat, c: nat, tail: Bytes)
    requires |t| == 12 && t[0] == BACKSLASH && t[1] == LETTER_U && FourHex(t, 2) && Unhex(t, 2) == h
    requires t[6] == BACKSLASH && t[7] == LETTER_U && FourHex(t, 8) && Unhex(t, 8) == l
    requires 0xD800 <= h < 0xDC00 && 0xDC00 <= l < 0xE000 && c == 0x10000 + 0x400 * (h - 0xD800) + (l - 0xDC00)
    ensures Scan(t + tail) == Longer(12, Scan(tail)) && Decode(t + tail) == Prepend(Encode(c), Decode(tail))
  {
    hide Scan, Decode, Encode, Unhex, FourHex;
    var a, b := t[..6], t[6..];
    assert t + tail == a + (b + tail);
    HalfDigits(t);
    NumberReads(a, h, b + tail);
    NumberReads(b, l, tail);
    FrontDigits(t, tail, 2);
    FrontDigits(t, tail, 8);
    var s := t + tail;
    assert s[0] == BACKSLASH && s[1] == LETTER_U && s[6] == BACKSLASH && s[7] == LETTER_U && s[12..] == tail;
    PairSplit(h, l, c);
    DecodePair(s, h, l, c);
  }

  lemma PairSplit(h: nat, l: nat, c: nat)
    requires 0xD800 <= h < 0xDC00 && 0xDC00 <= l < 0xE000 && c == 0x10000 + 0x400 * (h - 0xD800) + (l - 0xDC00)
    ensures 0x10000 <= c <= 0x10FFFF && h == 0xD800 + (c - 0x10000) / 1024 && l == 0xDC00 + (c - 0x10000) % 1024
  {
  }

  lemma HalfDigits(t: Bytes)
    requires |t| == 12 && FourHex(t, 2) && FourHex(t, 8)
    ensures FourHex(t[..6], 2) && Unhex(t[..6], 2) == Unhex(t, 2)
    ensures FourHex(t[6..], 2) && Unhex(t[6..], 2) == Unhex(t, 8)
  {
    hide HexValue, IsHex;
  }

  /** A text that spells code points is scanned up to the closing quote and decoded to their
      encoding. */
  lemma {:induction false} SpellsReads(p: Bytes, cs: seq<nat>, tail: Bytes)
    requires Spells(p, cs)
    ensures forall i :: 0 <= i < |cs| ==> Scalar(cs[i])
    ensures Scan(p + [QUOTE] + tail) == Some(|p|) && Decode(p) == Some(EncodeAll(cs))
    decreases |cs|
  {
    hide Scan, Decode, Encode, Spelled;
    if |cs| == 0 {
      EndOfString(tail);
      assert [] + [QUOTE] + tail == [QUOTE] + tail;
    } else {
      var n: nat :| n <= |p| && Spelled(p[..n], cs[0]) && Spells(p[n..], cs[1..]);
      var a, b := p[..n], p[n..];
      assert p == a + b && p + [QUOTE] + tail == a + (b + [QUOTE] + tail);
      SpellsReads(b, cs[1..], tail);
      SpelledReads(a, cs[0], b + [QUOTE] + tail);
      SpelledReads(a, cs[0], b);
      forall i | 0 <= i < |cs|
        ensures Scalar(cs[i])
      {
        assert i != 0 ==> cs[i] == cs[1..][i - 1];
      }
    }
  }

  // ---------------------------------------------------------------- what is read is spelled

  /** The scanner accepts `p` up to the closing quote. */
  ghost predicate Scannable(p: Bytes) {
    Scan(p + [QUOTE]) == Some(|p|)
  }

  lemma ScanOn(t: Bytes, b: Bytes)
    requires Scannable(t + b) && Scan(t + (b + [QUOTE])) == Longer(|t|, Scan(b + [QUOTE]))
    ensures Scannable(b)
  {
    hide Scan;
    assert t + b + [QUOTE] == t + (b + [QUOTE]);
  }

  lemma {:induction false} ValidOn(p: Bytes, n: nat)
    requires Valid(p) && n <= |p| && forall i :: 0 <= i < n ==> p[i] < 0x80
    ensures Valid(p[n..])
    decreases n
  {
    if n == 0 {
      assert p[0..] == p;
    } else {
      ValidOn(p[1..], n - 1);
      assert p[1..][n - 1..] == p[n..];
    }
  }

  /** What comes first in a text that can be scanned and decoded. */
  lemma FirstSpelled(p: Bytes) returns (n: nat, c: nat)
    requires 0 < |p| && Scannable(p) && Valid(p) && IsBytes(p) && Decode(p).Some?
    ensures 0 < n <= |p| && Spelled(p[..n], c) && Valid(p[n..])
  {
    hide Scan, Decode, Valid, Encode, DigitsAre, EscapeFor;
    ScanCases(p);
    DecodeCases(p);
    ValidCases(p);
    if p[0] != BACKSLASH {
      var r := Iterate(p).value;
      n, c := r.count, r.codepoint;
      IterateEncodes(p);
      FirstRaw(p);
    } else if p[1] != LETTER_U {
      n, c := 2, SimpleValue(p[1]);
      EscapeMeans(p[1], c);
      ValidOn(p, 2);
    } else {
      n, c := FirstNumber(p);
    }
  }

  lemma FirstNumber(p: Bytes) returns (n: nat, c: nat)
    requires 6 <= |p| && p[0] == BACKSLASH && p[1] == LETTER_U && FourHex(p, 2) && Valid(p)
    requires var v := Unhex(p, 2);
      && !(0xDC00 <= v <= 0xDFFF)
      && (0xD800 <= v <= 0xDBFF ==>
            |p| >= 12 && p[6] == BACKSLASH && p[7] == LETTER_U && FourHex(p, 8) && 0xDC00 <= Unhex(p, 8) <= 0xDFFF)
    ensures 0 < n <= |p| && Spelled(p[..n], c) && Valid(p[n..])
  {
    hide *;
    var v := Unhex(p, 2);
    AsciiEscape(p, 0);
    if 0xD800 <= v <= 0xDBFF {
      var w := Unhex(p, 8);
      AsciiEscape(p, 6);
      n, c := 12, 0x10000 + 0x400 * (v - 0xD800) + (w - 0xDC00);
      SpelledPair(p, v, w, c);
      ValidOn(p, 12);
    } else {
      n, c := 6, v;
      SpelledNumber(p, v);
      ValidOn(p, 6);
    }
  }

  lemma AsciiEscape(p: Bytes, at: nat)
    requires at + 6 <= |p| && p[at] == BACKSLASH && p[at + 1] == LETTER_U && FourHex(p, at + 2)
    ensures forall i :: at <= i < at + 6 ==> p[i] < 0x80
  {
    AsciiDigits(p, at + 2);
  }

  /** Digits in the front part of a text. */
  lemma DigitsFront(p: Bytes, n: nat, at: nat, v: nat)
    requires n <= |p| && at + 4 <= n && FourHex(p, at) && Unhex(p, at) == v
    ensures DigitsAre(p[..n][at..at + 4], v) && v < 0x10000
  {
    hide DigitsAre, Unhex, FourHex;
    DigitsInside(p, at, v);
    assert p[..n][at..at + 4] == p[at..at + 4];
  }

  lemma SpelledNumber(p: Bytes, v: nat)
    requires 6 <= |p| && p[0] == BACKSLASH && p[1] == LETTER_U && FourHex(p, 2) && v == Unhex(p, 2)
    requires !(0xD800 <= v <= 0xDFFF)
    ensures Spelled(p[..6], v)
  {
    hide Encode, DigitsAre, Unhex, FourHex, ByPair, EscapeFor, LOWER, UPPER;
    DigitsFront(p, 6, 2, v);
    var t := p[..6];
    assert t[0] == p[0] && t[1] == p[1];
    assert ByNumber(t, v);
    hide ByNumber;
  }

  lemma SpelledPair(p: Bytes, v: nat, w: nat, c: nat)
    requires 12 <= |p| && p[0] == BACKSLASH && p[1] == LETTER_U && FourHex(p, 2) && v == Unhex(p, 2)
    requires p[6] == BACKSLASH && p[7] == LETTER_U && FourHex(p, 8) && w == Unhex(p, 8)
    requires 0xD800 <= v < 0xDC00 && 0xDC00 <= w < 0xE000 && c == 0x10000 + 0x400 * (v - 0xD800) + (w - 0xDC00)
    ensures Spelled(p[..12], c)
  {
    hide Encode, DigitsAre, Unhex, FourHex, ByNumber, EscapeFor, LOWER, UPPER;
    DigitsFront(p, 12, 2, v);
    DigitsFront(p, 12, 8, w);
    var t := p[..12];
    assert t[0] == p[0] && t[1] == p[1] && t[6] == p[6] && t[7] == p[7];
    assert ByPair(t, c);
    hide ByPair;
  }

  lemma AsciiDigits(p: Bytes, at: nat)
    requires FourHex(p, at)
    ensures p[at] < 0x80 && p[at + 1] < 0x80 && p[at + 2] < 0x80 && p[at + 3] < 0x80
  {
  }

  lemma ScanCases(p: Bytes)
    requires 0 < |p| && Scannable(p)
    ensures p[0] != QUOTE && 0x20 <= p[0]
    ensures p[0] == BACKSLASH ==> |p| >= 2
    ensures p[0] == BACKSLASH && p[1] == LETTER_U ==> |p| >= 6 && FourHex(p, 2)
    ensures p[0] == BACKSLASH && p[1] != LETTER_U ==> SimpleEscape(p[1])
  {
    var s := p + [QUOTE];
    assert s[0] == p[0];
    LoneBackslash();
    assert |p| == 1 ==> s == [p[0], QUOTE];
    if p[0] == BACKSLASH && |p| >= 2 && p[1] == LETTER_U {
      assert s[1] == p[1];
      ShortNumber(p);
    }
  }

  lemma LoneBackslash()
    ensures Scan([BACKSLASH, QUOTE]) == None
  {
    assert [BACKSLASH, QUOTE][2..] == [];
    assert Scan([]) == None;
  }

  /** The closing quote is no digit. */
  lemma ShortNumber(p: Bytes)
    requires 2 <= |p| && FourHex(p + [QUOTE], 2)
    ensures |p| >= 6 && FourHex(p, 2)
  {
    var s := p + [QUOTE];
    assert forall i :: 0 <= i < |p| ==> s[i] == p[i];
    assert s[|p|] == QUOTE && !IsHex(QUOTE);
  }

  lemma DecodeCases(p: Bytes)
    requires 0 < |p| && Decode(p).Some?
    ensures p[0] == BACKSLASH && |p| >= 2 && p[1] == LETTER_U && FourHex(p, 2) ==>
      var v := Unhex(p, 2);
      && !(0xDC00 <= v <= 0xDFFF)
      && (0xD800 <= v <= 0xDBFF ==>
            |p| >= 12 && p[6] == BACKSLASH && p[7] == LETTER_U && FourHex(p, 8) && 0xDC00 <= Unhex(p, 8) <= 0xDFFF)
  {
    hide Encode, Unhex;
  }

  lemma ValidCases(p: Bytes)
    requires 0 < |p| && Valid(p)
    ensures Iterate(p).Some? && Valid(p[Iterate(p).value.count..])
  {
    hide Iterate;
  }

  /** Raw text starts a code point that may stand for itself. */
  lemma FirstRaw(p: Bytes)
    requires 0 < |p| && IsBytes(p) && Iterate(p).Some? && 0x20 <= p[0] && p[0] != QUOTE && p[0] != BACKSLASH
    ensures var c := Iterate(p).value.codepoint; 0x20 <= c && c != QUOTE && c != BACKSLASH
  {
  }

  /** Every text that can be scanned and decoded spells what it is decoded to. */
  lemma {:induction false} ReadIsSpelled(p: Bytes) returns (cs: seq<nat>)
    requires Scannable(p) && Valid(p) && IsBytes(p) && Decode(p).Some?
    ensures Spells(p, cs)
    decreases |p|
  {
    if |p| == 0 {
      cs := [];
    } else {
      var n, c := FirstSpelled(p);
      hide Scan, Decode, Spelled, Valid, Encode;
      var a, b := p[..n], p[n..];
      assert p == a + b;
      SpelledReads(a, c, b + [QUOTE]);
      SpelledReads(a, c, b);
      ScanOn(a, b);
      var rest := ReadIsSpelled(b);
      cs := [c] + rest;
      assert cs[1..] == rest;
    }
  }

  /** `lex_scan_string` decodes a text to `x` exactly if the text spells `x`. */
  lemma DecodeExact(p: Bytes, x: Bytes)
    requires Scannable(p) && Valid(p) && IsBytes(p)
    ensures Decode(p) == Some(x) <==> Means(p, x)
  {
    hide Scan, Decode, Spells, Valid;
    if Decode(p).Some? {
      var cs := ReadIsSpelled(p);
      SpellsReads(p, cs, []);
    }
    if Means(p, x) {
      var cs: seq<nat> :|
        Spells(p, cs) && (forall i :: 0 <= i < |cs| ==> Scalar(cs[i])) && x == EncodeAll(cs);
      SpellsReads(p, cs, []);
    }
  }
}

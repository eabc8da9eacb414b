/** JSON strings: `dump_string` of lib/libjansson/dump.c, and `lex_scan_string` and
    `decode_unicode_escape` of lib/libjansson/load.c (section 7 of RFC 8259). */
module JsonString {
  import opened Common
  import opened Utf8

  const QUOTE: nat := 34
  const BACKSLASH: nat := 92
  const SLASH: nat := 47
  const LETTER_U: nat := 117

  /** The dump flags: spaces per level, JSON_COMPACT, JSON_ENSURE_ASCII, JSON_ESCAPE_SLASH. */
  datatype Flags = Flags(indent: nat, compact: bool, ascii: bool, slash: bool)

  // ---------------------------------------------------------------- hexadecimal

  function HexDigit(x: nat): nat {
    if x < 10 then 48 + x else 55 + x
  }

  /** "%04X". */
  function Hex4(v: nat): (r: Bytes)
    ensures |r| == 4
  {
    [HexDigit(v / 4096 % 16), HexDigit(v / 256 % 16), HexDigit(v / 16 % 16), HexDigit(v % 16)]
  }

  predicate IsHex(c: nat) {
    48 <= c <= 57 || 65 <= c <= 70 || 97 <= c <= 102
  }

  function HexValue(c: nat): (r: nat)
    requires IsHex(c)
    ensures r < 16
  {
    if c <= 57 then c - 48 else if 97 <= c then c - 97 + 10 else c - 65 + 10
  }

  predicate FourHex(s: Bytes, at: nat) {
    at + 4 <= |s| && IsHex(s[at]) && IsHex(s[at + 1]) && IsHex(s[at + 2]) && IsHex(s[at + 3])
  }

  /** `decode_unicode_escape`. */
  function Unhex(s: Bytes, at: nat): (v: nat)
    requires FourHex(s, at)
    ensures v < 0x10000
  {
    ((HexValue(s[at]) * 16 + HexValue(s[at + 1])) * 16 + HexValue(s[at + 2])) * 16 + HexValue(s[at + 3])
  }

  lemma DigitValue(x: nat)
    requires x < 16
    ensures IsHex(HexDigit(x)) && HexValue(HexDigit(x)) == x
  {
  }

  lemma HexRoundTrip(v: nat, s: Bytes, at: nat)
    requires v < 0x10000 && at + 4 <= |s| && s[at..at + 4] == Hex4(v)
    ensures FourHex(s, at) && Unhex(s, at) == v
  {
    var a, b, c, d := v / 4096 % 16, v / 256 % 16, v / 16 % 16, v % 16;
    DigitValue(a);
    DigitValue(b);
    DigitValue(c);
    DigitValue(d);
    var t := s[at..at + 4];
    assert s[at] == t[0] && s[at + 1] == t[1] && s[at + 2] == t[2] && s[at + 3] == t[3];
    HexSum(v);
    hide HexDigit, HexValue;
  }

  lemma HexSum(v: nat)
    requires v < 0x10000
    ensures ((v / 4096 % 16 * 16 + v / 256 % 16) * 16 + v / 16 % 16) * 16 + v % 16 == v
  {
  }

  // ---------------------------------------------------------------- dump_string

  predicate MustEscape(c: nat, f: Flags) {
    c == BACKSLASH || c == QUOTE || c < 0x20 || (f.slash && c == SLASH) || (f.ascii && c > 0x7F)
  }

  function UEscape(v: nat): (r: Bytes)
    ensures |r| == 6
  {
    [BACKSLASH, LETTER_U] + Hex4(v)
  }

  /** The escape for a code point. */
  function EscapeText(c: nat): Bytes {
    if c == BACKSLASH then [BACKSLASH, BACKSLASH]
    else if c == QUOTE then [BACKSLASH, QUOTE]
    else if c == 8 then [BACKSLASH, 98]
    else if c == 12 then [BACKSLASH, 102]
    else if c == 10 then [BACKSLASH, 110]
    else if c == 13 then [BACKSLASH, 114]
    else if c == 9 then [BACKSLASH, 116]
    else if c == SLASH then [BACKSLASH, SLASH]
    else if c < 0x10000 then UEscape(c)
    else UEscape(0xD800 + (c - 0x10000) / 1024) + UEscape(0xDC00 + (c - 0x10000) % 1024)
  }

  /** How a code point appears between the quotes. */
  function Piece(c: nat, f: Flags): Bytes
    requires Scalar(c)
  {
    if MustEscape(c, f) then EscapeText(c) else Encode(c)
  }

  /** The text between the quotes. */
  function Body(s: Bytes, f: Flags): Bytes
    requires Valid(s)
    decreases |s|
  {
    if |s| == 0 then []
    else
      var r := Iterate(s).value;
      Piece(r.codepoint, f) + Body(s[r.count..], f)
  }

  /** `dump_string`: fails on text that is not UTF-8. */
  function DumpString(s: Bytes, f: Flags): Option<Bytes> {
    if Valid(s) then Some([QUOTE] + Body(s, f) + [QUOTE]) else None
  }

  // ---------------------------------------------------------------- lex_scan_string

  predicate SimpleEscape(c: nat) {
    c == QUOTE || c == BACKSLASH || c == SLASH || c == 98 || c == 102 || c == 110 || c == 114 || c == 116
  }

  function SimpleValue(c: nat): nat {
    if c == 98 then 8
    else if c == 102 then 12
    else if c == 110 then 10
    else if c == 114 then 13
    else if c == 116 then 9
    else c
  }

  function Longer(n: nat, r: Option<nat>): Option<nat> {
    match r
    case None => None
    case Some(m) => Some(n + m)
  }

  /** First pass: how many bytes up to the closing quote, if there is one and all escapes are
      well formed. */
  function Scan(s: Bytes): (r: Option<nat>)
    decreases |s|
  {
    if |s| == 0 then None
    else if s[0] == QUOTE then Some(0)
    else if s[0] < 0x20 then None
    else if s[0] == BACKSLASH then
      if |s| < 2 then None
      else if s[1] == LETTER_U then
        if FourHex(s, 2) then Longer(6, Scan(s[6..])) else None
      else if SimpleEscape(s[1]) then Longer(2, Scan(s[2..]))
      else None
    else Longer(1, Scan(s[1..]))
  }

  function Prepend(a: Bytes, r: Option<Bytes>): Option<Bytes> {
    match r
    case None => None
    case Some(b) => Some(a + b)
  }

  /** Second pass: the value of the text between the quotes; fails on lone surrogates. */
  function Decode(p: Bytes): Option<Bytes>
    decreases |p|
  {
    if |p| == 0 then Some([])
    else if p[0] != BACKSLASH then Prepend([p[0]], Decode(p[1..]))
    else if |p| < 2 then None
    else if p[1] != LETTER_U then Prepend([SimpleValue(p[1])], Decode(p[2..]))
    else if !FourHex(p, 2) then None
    else
      var v := Unhex(p, 2);
      if 0xD800 <= v <= 0xDBFF then
        if |p| >= 8 && p[6] == BACKSLASH && p[7] == LETTER_U && FourHex(p, 8) then
          var w := Unhex(p, 8);
          if 0xDC00 <= w <= 0xDFFF then
            Prepend(Encode((v - 0xD800) * 1024 + (w - 0xDC00) + 0x10000), Decode(p[12..]))
          else None
        else None
      else if 0xDC00 <= v <= 0xDFFF then None
      else Prepend(Encode(v), Decode(p[6..]))
  }

  /** The value is never longer than its source. */
  lemma {:induction false} DecodeLength(p: Bytes)
    ensures Decode(p).Some? ==> |Decode(p).value| <= |p|
    decreases |p|
  {
    if |p| == 0 {
    } else if p[0] != BACKSLASH {
      DecodeLength(p[1..]);
    } else if |p| >= 2 && p[1] != LETTER_U {
      DecodeLength(p[2..]);
    } else if FourHex(p, 2) {
      DecodeLength(p[6..]);
      if |p| >= 12 {
        DecodeLength(p[12..]);
      }
    }
  }

  // ---------------------------------------------------------------- and back

  lemma ScanRaw(c: nat, tail: Bytes)
    requires 0x20 <= c && c != QUOTE && c != BACKSLASH
    ensures Scan([c] + tail) == Longer(1, Scan(tail)) && Decode([c] + tail) == Prepend([c], Decode(tail))
  {
    assert ([c] + tail)[1..] == tail;
  }

  lemma PrependNothing(r: Option<Bytes>)
    ensures Prepend([], r) == r
  {
    if r.Some? {
      assert [] + r.value == r.value;
    }
  }

  lemma PrependTwice(a: Bytes, b: Bytes, r: Option<Bytes>)
    ensures Prepend(a, Prepend(b, r)) == Prepend(a + b, r)
  {
    if r.Some? {
      assert a + (b + r.value) == a + b + r.value;
    }
  }

  lemma {:induction false} RawRun(a: Bytes, tail: Bytes)
    requires forall i :: 0 <= i < |a| ==> 0x20 <= a[i] && a[i] != QUOTE && a[i] != BACKSLASH
    ensures Scan(a + tail) == Longer(|a|, Scan(tail)) && Decode(a + tail) == Prepend(a, Decode(tail))
    decreases |a|
  {
    hide Scan, Decode;
    if |a| == 0 {
      assert a + tail == tail;
      PrependNothing(Decode(tail));
    } else {
      assert a + tail == [a[0]] + (a[1..] + tail) && a == [a[0]] + a[1..];
      ScanRaw(a[0], a[1..] + tail);
      RawRun(a[1..], tail);
      PrependTwice([a[0]], a[1..], Decode(tail));
    }
  }

  lemma ScanSimple(e: nat, tail: Bytes)
    requires SimpleEscape(e)
    ensures Scan([BACKSLASH, e] + tail) == Longer(2, Scan(tail))
    ensures Decode([BACKSLASH, e] + tail) == Prepend([SimpleValue(e)], Decode(tail))
  {
    var s := [BACKSLASH, e] + tail;
    assert s[2..] == tail && s[1] == e;
  }

  lemma UEscapeFront(v: nat, tail: Bytes)
    requires v < 0x10000
    ensures var s := UEscape(v) + tail;
      |s| >= 6 && s[0] == BACKSLASH && s[1] == LETTER_U && s[6..] == tail && FourHex(s, 2) && Unhex(s, 2) == v
  {
    var s := UEscape(v) + tail;
    assert s[2..6] == Hex4(v);
    HexRoundTrip(v, s, 2);
  }

  lemma ScanU(v: nat, tail: Bytes)
    requires v < 0x10000
    ensures Scan(UEscape(v) + tail) == Longer(6, Scan(tail))
    ensures Scalar(v) ==> Decode(UEscape(v) + tail) == Prepend(Encode(v), Decode(tail))
  {
    UEscapeFront(v, tail);
    hide UEscape, Encode, Unhex;
  }

  lemma ScanPair(c: nat, v: nat, w: nat, tail: Bytes)
    requires 0x10000 <= c <= 0x10FFFF && v == 0xD800 + (c - 0x10000) / 1024 && w == 0xDC00 + (c - 0x10000) % 1024
    ensures Scan(UEscape(v) + UEscape(w) + tail) == Longer(12, Scan(tail))
    ensures Decode(UEscape(v) + UEscape(w) + tail) == Prepend(Encode(c), Decode(tail))
  {
    hide Scan, UEscape, Encode, Unhex, Decode, FourHex;
    assert v < 0x10000 && w < 0x10000;
    var t := UEscape(w) + tail;
    var s := UEscape(v) + t;
    assert UEscape(v) + UEscape(w) + tail == s;
    ScanU(v, t);
    ScanU(w, tail);
    UEscapeFront(v, t);
    UEscapeFront(w, tail);
    Later(s, t, 6);
    Rest12(s, t);
    DecodePair(s, v, w, c);
  }

  lemma Rest12(s: Bytes, t: Bytes)
    requires |s| >= 6 && s[6..] == t && |t| >= 6
    ensures |s| >= 12 && s[12..] == t[6..]
  {
  }

  lemma DecodePair(s: Bytes, v: nat, w: nat, c: nat)
    requires |s| >= 12 && s[0] == BACKSLASH && s[1] == LETTER_U && FourHex(s, 2) && Unhex(s, 2) == v
    requires s[6] == BACKSLASH && s[7] == LETTER_U && FourHex(s, 8) && Unhex(s, 8) == w
    requires 0x10000 <= c <= 0x10FFFF && v == 0xD800 + (c - 0x10000) / 1024 && w == 0xDC00 + (c - 0x10000) % 1024
    ensures Decode(s) == Prepend(Encode(c), Decode(s[12..]))
  {
    assert (v - 0xD800) * 1024 + (w - 0xDC00) + 0x10000 == c;
    hide Encode, Unhex, FourHex;
  }

  /** Digits found in the rest of a string. */
  lemma Later(s: Bytes, t: Bytes, n: nat)
    requires n <= |s| && s[n..] == t && FourHex(t, 2)
    ensures FourHex(s, n + 2) && Unhex(s, n + 2) == Unhex(t, 2) && s[n] == t[0] && s[n + 1] == t[1]
  {
    assert forall i :: 0 <= i < 6 ==> s[n + i] == t[i];
  }

  /** Every code point, escaped or not, reads back as its encoding. */
  lemma PieceBack(c: nat, f: Flags, tail: Bytes)
    requires Scalar(c)
    ensures Scan(Piece(c, f) + tail) == Longer(|Piece(c, f)|, Scan(tail))
    ensures Decode(Piece(c, f) + tail) == Prepend(Encode(c), Decode(tail))
  {
    hide Scan, Decode, UEscape;
    if !MustEscape(c, f) {
      EncodeRaw(c);
      RawRun(Encode(c), tail);
    } else if c == BACKSLASH || c == QUOTE || c == SLASH {
      ScanSimple(c, tail);
    } else if c == 8 {
      ScanSimple(98, tail);
    } else if c == 12 {
      ScanSimple(102, tail);
    } else if c == 10 {
      ScanSimple(110, tail);
    } else if c == 13 {
      ScanSimple(114, tail);
    } else if c == 9 {
      ScanSimple(116, tail);
    } else if c < 0x10000 {
      ScanU(c, tail);
    } else {
      ScanPair(c, 0xD800 + (c - 0x10000) / 1024, 0xDC00 + (c - 0x10000) % 1024, tail);
    }
  }

  lemma EncodeRaw(c: nat)
    requires Scalar(c) && 0x20 <= c && c != QUOTE && c != BACKSLASH
    ensures forall i :: 0 <= i < |Encode(c)| ==>
      0x20 <= Encode(c)[i] && Encode(c)[i] != QUOTE && Encode(c)[i] != BACKSLASH
  {
  }

  /** What was dumped is scanned to its end and decoded to what it was. */
  lemma {:induction false} StringRoundTrip(s: Bytes, f: Flags, tail: Bytes)
    requires Valid(s) && IsBytes(s)
    ensures Scan(Body(s, f) + [QUOTE] + tail) == Some(|Body(s, f)|)
    ensures Decode(Body(s, f)) == Some(s)
    decreases |s|
  {
    hide Scan, Decode, Iterate, Piece, Encode;
    if |s| == 0 {
      EndOfString(tail);
      assert [] + [QUOTE] + tail == [QUOTE] + tail;
    } else {
      var r := Iterate(s).value;
      var rest := s[r.count..];
      IterateEncodes(s);
      StringRoundTrip(rest, f, tail);
      var p, b := Piece(r.codepoint, f), Body(rest, f);
      assert p + b + [QUOTE] + tail == p + (b + [QUOTE] + tail);
      PieceBack(r.codepoint, f, b + [QUOTE] + tail);
      PieceBack(r.codepoint, f, b);
      assert s == s[..r.count] + rest;
    }
  }

  lemma EndOfString(tail: Bytes)
    ensures Scan([QUOTE] + tail) == Some(0) && Decode([]) == Some([])
  {
  }

  // ---------------------------------------------------------------- the loops

  lemma BodyNext(s: Bytes, pos: nat, f: Flags)
    requires pos < |s|
    ensures Valid(s[pos..]) <==> Iterate(s[pos..]).Some? && Valid(s[pos + Iterate(s[pos..]).value.count..])
    ensures Valid(s[pos..]) ==>
      var r := Iterate(s[pos..]).value; Body(s[pos..], f) == Piece(r.codepoint, f) + Body(s[pos + r.count..], f)
  {
    hide Iterate, Piece;
    if Iterate(s[pos..]).Some? {
      var n := Iterate(s[pos..]).value.count;
      assert s[pos..][n..] == s[pos + n..];
    }
  }

  /** `out` is what must come before the text for `s` from `pos` on. */
  ghost predicate Dumped(s: Bytes, f: Flags, out: Bytes, pos: nat)
    requires pos <= |s|
  {
    && (Valid(s) <==> Valid(s[pos..]))
    && (Valid(s) ==> out + Body(s[pos..], f) == [QUOTE] + Body(s, f))
  }

  /** A code point that goes out as it is. */
  lemma DumpRaw(s: Bytes, f: Flags, out: Bytes, str: nat, pos: nat, r: Step)
    requires IsBytes(s) && str <= pos < |s| && Dumped(s, f, out + s[str..pos], pos) && Iterate(s[pos..]) == Some(r)
    requires !MustEscape(r.codepoint, f)
    ensures pos + r.count <= |s| && Dumped(s, f, out + s[str..pos + r.count], pos + r.count)
  {
    hide Iterate, Encode, Body, Valid, MustEscape;
    BodyNext(s, pos, f);
    IterateEncodes(s[pos..]);
    var next := pos + r.count;
    SliceJoin(s, out, str, pos, next);
    if Valid(s) {
      Group3(out + s[str..pos], s[pos..next], Body(s[next..], f));
    }
  }

  lemma SliceJoin(s: Bytes, out: Bytes, a: nat, b: nat, c: nat)
    requires a <= b <= c <= |s|
    ensures out + s[a..b] + s[b..c] == out + s[a..c] && s[b..][..c - b] == s[b..c]
  {
  }

  lemma DumpEscaped(s: Bytes, f: Flags, out: Bytes, pos: nat, r: Step)
    requires pos < |s| && Dumped(s, f, out, pos) && Iterate(s[pos..]) == Some(r) && MustEscape(r.codepoint, f)
    ensures pos + r.count <= |s| && Dumped(s, f, out + EscapeText(r.codepoint), pos + r.count)
  {
    hide Iterate, Body, Valid, EscapeText;
    BodyNext(s, pos, f);
    if Valid(s) {
      Group3(out, EscapeText(r.codepoint), Body(s[pos + r.count..], f));
    }
  }

  /** The loop of `dump_string`: runs of unescaped text are written in one piece. */
  method DumpStringLoop(s: Bytes, f: Flags) returns (r: Option<Bytes>)
    requires IsBytes(s)
    ensures r == DumpString(s, f)
  {
    hide Iterate, Body, Valid, EscapeText, Encode, MustEscape;
    var out := [QUOTE];
    var str, pos, end := 0, 0, 0;
    DumpStart(s, f);
    while true
      invariant str == pos == end <= |s| && Dumped(s, f, out, pos)
      decreases |s| - pos
    {
      var c := 0;
      assert out + s[str..pos] == out;
      while end < |s|
        invariant str <= pos == end <= |s| && Dumped(s, f, out + s[str..pos], pos)
        decreases |s| - pos
      {
        var it := Iterate(s[pos..]);
        BodyNext(s, pos, f);
        if it.None? {
          return None;
        }
        end := pos + it.value.count;
        c := it.value.codepoint;
        if MustEscape(c, f) {
          break;
        }
        DumpRaw(s, f, out, str, pos, it.value);
        pos := end;
      }
      out := out + s[str..pos];
      if end == pos {
        break;
      }
      DumpEscaped(s, f, out, pos, Iterate(s[pos..]).value);
      out := out + EscapeText(c);
      str, pos := end, end;
    }
    DumpEnd(s, f, out, pos);
    return Some(out + [QUOTE]);
  }

  lemma DumpStart(s: Bytes, f: Flags)
    ensures Dumped(s, f, [QUOTE], 0)
  {
    assert s[0..] == s;
  }

  lemma DumpEnd(s: Bytes, f: Flags, out: Bytes, pos: nat)
    requires pos == |s| && Dumped(s, f, out, pos)
    ensures DumpString(s, f) == Some(out + [QUOTE])
  {
    assert s[pos..] == [];
    assert out + [] == out;
  }

  /** The second loop of `lex_scan_string`, writing into a buffer no larger than the source:
      it never overruns. */
  method DecodeText(p: Bytes) returns (ok: bool, t: array<nat>, len: nat)
    ensures ok <==> Decode(p).Some?
    ensures t.Length == |p| + 1 && (ok ==> len < t.Length && t[..len] == Decode(p).value)
  {
    hide Decode, Encode, Unhex;
    t := new nat[|p| + 1];
    len := 0;
    var i := 0;
    assert p[0..] == p && t[..0] == [];
    PrependNothing(Decode(p));
    while i < |p|
      invariant 0 <= len <= i <= |p| && Decode(p) == Prepend(t[..len], Decode(p[i..]))
      decreases |p| - i
    {
      var n, v := DecodeOne(p[i..]);
      if n == 0 {
        return false, t, len;
      }
      PrependTwice(t[..len], v, Decode(p[i + n..]));
      ghost var was := t[..len];
      for k := 0 to |v|
        invariant t[..len + k] == was + v[..k]
      {
        t[len + k] := v[k];
        assert v[..k + 1] == v[..k] + [v[k]];
      }
      assert t[..len + |v|] == was + v;
      len := len + |v|;
      i := i + n;
    }
    NothingLeft(p, i);
    ok := true;
  }

  lemma NothingLeft(p: Bytes, i: nat)
    requires i == |p|
    ensures Decode(p[i..]) == Some([])
  {
  }

  /** One character or escape: how many bytes it takes and what it stands for; 0 if it stands
      for nothing. */
  method DecodeOne(p: Bytes) returns (n: nat, v: Bytes)
    requires 0 < |p|
    ensures n == 0 ==> Decode(p) == None
    ensures n != 0 ==> n <= |p| && |v| <= n && Decode(p) == Prepend(v, Decode(p[n..]))
  {
    hide Unhex;
    if p[0] != BACKSLASH {
      return 1, [p[0]];
    }
    if |p| < 2 {
      return 0, [];
    }
    if p[1] != LETTER_U {
      return 2, [SimpleValue(p[1])];
    }
    if !FourHex(p, 2) {
      return 0, [];
    }
    var x := Unhex(p, 2);
    if 0xD800 <= x <= 0xDBFF {
      if |p| >= 8 && p[6] == BACKSLASH && p[7] == LETTER_U && FourHex(p, 8) {
        var y := Unhex(p, 8);
        if 0xDC00 <= y <= 0xDFFF {
          return 12, Encode((x - 0xD800) * 1024 + (y - 0xDC00) + 0x10000);
        }
      }
      return 0, [];
    }
    if 0xDC00 <= x <= 0xDFFF {
      return 0, [];
    }
    return 6, Encode(x);
  }
}

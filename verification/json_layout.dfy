/** What the dump flags promise (lib/libjansson/dump.c): JSON_ENSURE_ASCII, JSON_ESCAPE_SLASH,
    JSON_COMPACT and JSON_INDENT. */
module JsonLayout {
  import opened Common
  import opened Utf8
  import opened JsonString
  import opened JsonSpelling
  import opened Json
  import opened JsonRoundTrip

  lemma AsciiJoin(a: Bytes, b: Bytes)
    ensures Ascii(a + b) <==> Ascii(a) && Ascii(b)
  {
    if Ascii(a + b) {
      forall i | 0 <= i < |a| ensures a[i] < 0x80 {
        assert (a + b)[i] == a[i];
      }
      forall i | 0 <= i < |b| ensures b[i] < 0x80 {
        assert (a + b)[|a| + i] == b[i];
      }
    }
  }

  lemma PieceAscii(c: nat, f: Flags)
    requires Scalar(c) && f.ascii
    ensures Ascii(Piece(c, f))
  {
    EscapeAscii(c);
    hide EscapeText;
  }

  lemma {:induction false} BodyAscii(s: Bytes, f: Flags)
    requires Valid(s) && f.ascii
    ensures Ascii(Body(s, f))
    decreases |s|
  {
    hide Iterate, Piece, Ascii;
    if |s| == 0 {
      NoneAscii();
    } else {
      var r := Iterate(s).value;
      PieceAscii(r.codepoint, f);
      BodyAscii(s[r.count..], f);
      AsciiJoin(Piece(r.codepoint, f), Body(s[r.count..], f));
    }
  }

  lemma NoneAscii()
    ensures Ascii([]) && Ascii([QUOTE]) && Ascii([COMMA]) && Ascii([LBRACKET]) && Ascii([RBRACKET])
    ensures Ascii([LBRACE]) && Ascii([RBRACE]) && Ascii([LBRACKET, RBRACKET]) && Ascii([LBRACE, RBRACE])
  {
  }

  lemma QuotedAscii(s: Bytes, f: Flags)
    requires Valid(s) && f.ascii
    ensures Ascii(Quoted(s, f))
  {
    hide Valid, Body, Ascii;
    NoneAscii();
    BodyAscii(s, f);
    AsciiJoin([QUOTE], Body(s, f));
    AsciiJoin([QUOTE] + Body(s, f), [QUOTE]);
  }

  lemma IndentAscii(f: Flags, depth: nat, space: bool)
    ensures Ascii(Indent(f, depth, space)) && Ascii(Separator(f))
  {
  }

  lemma WrappedAscii(o: nat, w: Bytes, inside: Bytes, w': Bytes, c: nat)
    requires Ascii(w) && Ascii(inside) && Ascii(w') && o < 0x80 && c < 0x80
    ensures Ascii([o] + w + (inside + (w' + [c])))
  {
    assert Ascii([o]) && Ascii([c]);
    hide Ascii;
    AsciiJoin(w', [c]);
    AsciiJoin(inside, w' + [c]);
    AsciiJoin([o], w);
    AsciiJoin([o] + w, inside + (w' + [c]));
  }

  lemma ListAscii(a: Bytes, w: Bytes, b: Bytes)
    requires Ascii(a) && Ascii(w) && Ascii(b)
    ensures Ascii(a + ([COMMA] + w + b))
  {
    hide Ascii;
    NoneAscii();
    AsciiJoin([COMMA], w);
    AsciiJoin([COMMA] + w, b);
    AsciiJoin(a, [COMMA] + w + b);
  }

  /** With JSON_ENSURE_ASCII the text is ASCII. */
  lemma {:induction false} TextAscii(v: Json, f: Flags, depth: nat)
    requires Good(v) && f.ascii
    ensures Ascii(Text(v, f, depth))
    decreases v, 0
  {
    hide Indent, ItemsText, MembersText, Body, Digits, Quoted;
    NoneAscii();
    match v {
      case Int(i) => DecimalAscii(i);
      case Str(s) => QuotedAscii(s, f);
      case Arr(items) =>
        if items.Cons? {
          ItemsAscii(items, f, depth + 1);
          IndentAscii(f, depth + 1, false);
          IndentAscii(f, depth, false);
          WrappedAscii(LBRACKET, Indent(f, depth + 1, false), ItemsText(items, f, depth + 1), Indent(f, depth, false),
            RBRACKET);
        }
      case Obj(m) =>
        if m.Bind? {
          MembersAscii(m, f, depth + 1);
          IndentAscii(f, depth + 1, false);
          IndentAscii(f, depth, false);
          WrappedAscii(LBRACE, Indent(f, depth + 1, false), MembersText(m, f, depth + 1), Indent(f, depth, false),
            RBRACE);
        }
      case _ =>
    }
  }

  lemma {:induction false} ItemsAscii(items: Items, f: Flags, depth: nat)
    requires GoodItems(items) && items.Cons? && f.ascii
    ensures Ascii(ItemsText(items, f, depth))
    decreases items, 0
  {
    hide Indent, Text, Ascii;
    TextAscii(items.head, f, depth);
    if items.tail.Cons? {
      ItemsAscii(items.tail, f, depth);
      IndentAscii(f, depth, true);
      ListAscii(Text(items.head, f, depth), Indent(f, depth, true), ItemsText(items.tail, f, depth));
    }
  }

  lemma {:induction false} MembersAscii(m: Members, f: Flags, depth: nat)
    requires GoodMembers(m) && m.Bind? && f.ascii
    ensures Ascii(MembersText(m, f, depth))
    decreases m, 0
  {
    hide Indent, Text, Ascii, Quoted, Separator;
    TextAscii(m.value, f, depth);
    QuotedAscii(m.key, f);
    IndentAscii(f, depth, true);
    AsciiJoin(Separator(f), Text(m.value, f, depth));
    AsciiJoin(Quoted(m.key, f), Separator(f) + Text(m.value, f, depth));
    if m.rest.Bind? {
      MembersAscii(m.rest, f, depth);
      ListAscii(MemberText(m.key, m.value, f, depth), Indent(f, depth, true), MembersText(m.rest, f, depth));
    }
  }

  // ---------------------------------------------------------------- slashes

  /** Every slash has a backslash before it. */
  ghost predicate SlashesEscaped(s: Bytes) {
    forall i :: 0 <= i < |s| && s[i] == SLASH ==> 0 < i && s[i - 1] == BACKSLASH
  }

  lemma SlashJoin(a: Bytes, b: Bytes)
    requires SlashesEscaped(a) && SlashesEscaped(b)
    ensures SlashesEscaped(a + b)
  {
    var s := a + b;
    forall i | 0 <= i < |s| && s[i] == SLASH
      ensures 0 < i && s[i - 1] == BACKSLASH
    {
      if i >= |a| {
        assert b[i - |a|] == SLASH;
      }
    }
  }

  lemma PieceSlash(c: nat, f: Flags)
    requires Scalar(c) && f.slash
    ensures SlashesEscaped(Piece(c, f))
  {
    if MustEscape(c, f) {
      EscapeSlash(c);
    } else {
      EncodeSlash(c);
    }
    hide EscapeText, Encode;
  }

  lemma EncodeSlash(c: nat)
    requires Scalar(c) && c != SLASH
    ensures forall i :: 0 <= i < |Encode(c)| ==> Encode(c)[i] != SLASH
  {
  }

  lemma EscapeSlash(c: nat)
    ensures SlashesEscaped(EscapeText(c))
  {
    if c < 0x10000 {
      USlash(c);
    } else {
      USlash(0xD800 + (c - 0x10000) / 1024);
      USlash(0xDC00 + (c - 0x10000) % 1024);
    }
    hide UEscape;
  }

  lemma USlash(v: nat)
    ensures forall i :: 0 <= i < 6 ==> UEscape(v)[i] != SLASH
  {
  }

  /** With JSON_ESCAPE_SLASH every slash in a string is escaped. */
  lemma {:induction false} BodySlash(s: Bytes, f: Flags)
    requires Valid(s) && f.slash
    ensures SlashesEscaped(Body(s, f))
    decreases |s|
  {
    hide Iterate, Piece, SlashesEscaped;
    if |s| == 0 {
      NoSlash();
    } else {
      var r := Iterate(s).value;
      PieceSlash(r.codepoint, f);
      BodySlash(s[r.count..], f);
      SlashJoin(Piece(r.codepoint, f), Body(s[r.count..], f));
    }
  }

  lemma NoSlash()
    ensures SlashesEscaped([])
  {
  }

  // ---------------------------------------------------------------- lines

  /** JSON_INDENT(n): what is inside brackets starts on a new line, `n` spaces for every level
      in, and the closing bracket on one with `n` spaces less. */
  lemma Lines(v: Json, f: Flags, depth: nat)
    requires Good(v) && 0 < f.indent && ((v.Arr? && v.items.Cons?) || (v.Obj? && v.members.Bind?))
    ensures var t := Text(v, f, depth); var open, close := f.indent * (depth + 1), f.indent * depth;
      && open + close + 4 <= |t| && t[0] == (if v.Arr? then LBRACKET else LBRACE) && t[1] == NEWLINE
      && (forall i :: 2 <= i < 2 + open ==> t[i] == SPACE) && t[2 + open] != SPACE
      && t[|t| - 1] == (if v.Arr? then RBRACKET else RBRACE) && t[|t| - 2 - close] == NEWLINE
      && forall i :: |t| - 1 - close <= i < |t| - 1 ==> t[i] == SPACE
  {
    var inside := if v.Arr? then ItemsText(v.items, f, depth + 1) else MembersText(v.members, f, depth + 1);
    var o, c := if v.Arr? then LBRACKET else LBRACE, if v.Arr? then RBRACKET else RBRACE;
    if v.Arr? {
      ItemsFirst(v.items, f, depth + 1);
    } else {
      MembersFirst(v.members, f, depth + 1);
    }
    var x, y := f.indent * (depth + 1), f.indent * depth;
    hide ItemsText, MembersText;
    assert Text(v, f, depth) == [o] + Indent(f, depth + 1, false) + (inside + (Indent(f, depth, false) + [c]));
    LineForm(o, x, inside, y, c);
  }

  lemma LineForm(o: nat, x: nat, inside: Bytes, y: nat, c: nat)
    requires 0 < |inside| && inside[0] != SPACE
    ensures var t := [o] + ([NEWLINE] + Spaces(x)) + (inside + ([NEWLINE] + Spaces(y) + [c]));
      && x + y + 4 <= |t| && t[0] == o && t[1] == NEWLINE
      && (forall i :: 2 <= i < 2 + x ==> t[i] == SPACE) && t[2 + x] == inside[0]
      && t[|t| - 1] == c && t[|t| - 2 - y] == NEWLINE
      && forall i :: |t| - 1 - y <= i < |t| - 1 ==> t[i] == SPACE
  {
  }

  lemma ItemsFirst(items: Items, f: Flags, depth: nat)
    requires GoodItems(items) && items.Cons?
    ensures 0 < |ItemsText(items, f, depth)| && ItemsText(items, f, depth)[0] != SPACE
  {
    hide Text;
    TextFirst(items.head, f, depth);
  }

  lemma MembersFirst(m: Members, f: Flags, depth: nat)
    requires GoodMembers(m) && m.Bind?
    ensures 0 < |MembersText(m, f, depth)| && MembersText(m, f, depth)[0] != SPACE
  {
    hide Text, Body;
  }

  lemma TextFirst(v: Json, f: Flags, depth: nat)
    requires Good(v)
    ensures 0 < |Text(v, f, depth)| && Text(v, f, depth)[0] != SPACE
  {
    hide Digits, Body, ItemsText, MembersText, Indent;
    if v.Int? {
      DigitsAreDigits(if v.i < 0 then -v.i else v.i);
    }
  }

  // ---------------------------------------------------------------- escapes

  /** Four upper-case digits. */
  ghost predicate UpperDigits(t: Bytes, at: nat, v: nat) {
    && at + 4 <= |t|
    && exists a: nat, b: nat, c: nat, d: nat ::
      && a < 16 && b < 16 && c < 16 && d < 16 && v == 4096 * a + 256 * b + 16 * c + d
      && t[at] == UPPER[a] as int && t[at + 1] == UPPER[b] as int && t[at + 2] == UPPER[c] as int
      && t[at + 3] == UPPER[d] as int
  }

  lemma HexDigitIs(x: nat)
    requires x < 16
    ensures HexDigit(x) == UPPER[x] as int
  {
    DigitTable(x);
  }

  lemma EscapeDigits(v: nat)
    requires v < 0x10000
    ensures UEscape(v)[0] == '\\' as int && UEscape(v)[1] == 'u' as int && UpperDigits(UEscape(v), 2, v)
  {
    var a, b, c, d := v / 4096 % 16, v / 256 % 16, v / 16 % 16, v % 16;
    HexDigitIs(a);
    HexDigitIs(b);
    HexDigitIs(c);
    HexDigitIs(d);
    HexSum(v);
    hide HexDigit, UPPER;
    assert v == 4096 * a + 256 * b + 16 * c + d;
  }

  /** How a code point is written: as it is if it may be, by a letter if there is one, else by
      its number or, above 0xFFFF, by two. */
  lemma PieceIs(c: nat, f: Flags)
    requires Scalar(c)
    ensures var t := Piece(c, f); var letter := c in {0x08, 0x09, 0x0A, 0x0C, 0x0D, 0x22, 0x5C}
      || (c == 0x2F && f.slash);
      && (letter ==> |t| == 2 && t[0] == '\\' as int && EscapeFor(t[1], c))
      && (!letter && 0x20 <= c && (c < 0x80 || !f.ascii) ==> t == Encode(c))
      && (!letter && (c < 0x20 || (f.ascii && 0x80 <= c < 0x10000)) ==>
            |t| == 6 && t[0] == '\\' as int && t[1] == 'u' as int && UpperDigits(t, 2, c))
      && (f.ascii && 0x10000 <= c ==> |t| == 12)
  {
    hide UpperDigits, UEscape, Encode;
    if c < 0x10000 {
      EscapeDigits(c);
    }
  }
}

/** The loader of lib/libjansson/load.c against the grammar of RFC 8259: it accepts a text, and
    gives a value for it, if and only if the text is the value written down in some layout. */
module JsonGrammar {
  import opened Common
  import opened Utf8
  import opened JsonString
  import opened JsonSpelling
  import opened Json
  import opened JsonRoundTrip

  // ---------------------------------------------------------------- the grammar

  /** Section 2: insignificant whitespace. */
  predicate Blank(w: Bytes) {
    forall i :: 0 <= i < |w| ==> w[i] in {0x20, 0x09, 0x0A, 0x0D}
  }

  /** The number that decimal digits stand for, by their places. */
  function Places(d: Bytes): int {
    if |d| == 0 then 0 else (d[0] - '0' as int) * Power10(|d| - 1) + Places(d[1..])
  }

  function Power10(n: nat): nat {
    if n == 0 then 1 else 10 * Power10(n - 1)
  }

  /** Section 6: digits without a superfluous zero in front. */
  predicate Unsigned(d: Bytes) {
    0 < |d| && (forall i :: 0 <= i < |d| ==> '0' as int <= d[i] <= '9' as int) && (|d| == 1 || d[0] != '0' as int)
  }

  /** An integer without fraction and exponent, within 64 bits. */
  predicate Integer(t: Bytes, i: int) {
    && -0x8000_0000_0000_0000 <= i < 0x8000_0000_0000_0000 && 0 < |t|
    && if t[0] == '-' as int then Unsigned(t[1..]) && i == -Places(t[1..]) else Unsigned(t) && i == Places(t)
  }

  /** A string between its quotes. */
  ghost predicate StringText(t: Bytes, x: Bytes) {
    2 <= |t| && t[0] == '"' as int == t[|t| - 1] && Means(t[1..|t| - 1], x)
  }

  /** A value of a single token. */
  ghost predicate WordText(t: Bytes, v: Json) {
    match v
    case Null => t == [110, 117, 108, 108]
    case True => t == [116, 114, 117, 101]
    case False => t == [102, 97, 108, 115, 101]
    case Int(i) => Integer(t, i)
    case Str(x) => StringText(t, x)
    case _ => false
  }

  /** A value with its layout. An empty array or object may hold a blank. */
  datatype Node =
    | Word(text: Bytes, value: Json)
    | Array(blank: Bytes, elements: Elements)
    | Object(blank: Bytes, pairs: Pairs)
  datatype Elements = NoElement | Element(before: Bytes, node: Node, after: Bytes, more: Elements)
  datatype Pairs =
    | NoPair
    | Pair(before: Bytes, text: Bytes, key: Bytes, left: Bytes, right: Bytes, node: Node, after: Bytes, more: Pairs)

  /** The text of a value in its layout. */
  function Flat(n: Node): Bytes {
    match n
    case Word(t, _) => t
    case Array(w, e) => ['[' as int] + (w + (FlatElements(e) + [']' as int]))
    case Object(w, p) => ['{' as int] + (w + (FlatPairs(p) + ['}' as int]))
  }

  function FlatElements(e: Elements): Bytes {
    match e
    case NoElement => []
    case Element(b, n, a, more) =>
      b + (Flat(n) + (a + (if more.NoElement? then [] else [',' as int] + FlatElements(more))))
  }

  function FlatPairs(p: Pairs): Bytes {
    match p
    case NoPair => []
    case Pair(b, t, _, l, r, n, a, more) =>
      b + (t + (l + ([':' as int] + (r + (Flat(n) + (a
        + (if more.NoPair? then [] else [',' as int] + FlatPairs(more))))))))
  }

  /** The value. A later member with the same key replaces the earlier one's value. */
  function Value(n: Node): Json {
    match n
    case Word(_, v) => v
    case Array(_, e) => Arr(Values(e))
    case Object(_, p) => Obj(Bindings(End, p))
  }

  function Values(e: Elements): Items {
    match e
    case NoElement => Nil
    case Element(_, n, _, more) => Cons(Value(n), Values(more))
  }

  function Bindings(seen: Members, p: Pairs): Members
    decreases p
  {
    match p
    case NoPair => seen
    case Pair(_, _, k, _, _, n, _, more) => Bindings(SetMember(seen, k, Value(n)), more)
  }

  /** The text of every token is right, and between tokens there are only blanks. JSON_ALLOW_NUL
      and JSON_REJECT_DUPLICATES are heeded; keys never hold NUL. */
  ghost predicate Right(n: Node, lf: LoadFlags)
    decreases n
  {
    match n
    case Word(t, v) => WordText(t, v) && (v.Str? ==> lf.nul || 0 !in v.s)
    case Array(w, e) => Blank(w) && RightElements(e, lf) && (e.Element? ==> w == [])
    case Object(w, p) => Blank(w) && RightPairs(p, End, lf) && (p.Pair? ==> w == [])
  }

  ghost predicate RightElements(e: Elements, lf: LoadFlags)
    decreases e
  {
    match e
    case NoElement => true
    case Element(b, n, a, more) => Blank(b) && Blank(a) && Right(n, lf) && RightElements(more, lf)
  }

  ghost predicate RightPairs(p: Pairs, seen: Members, lf: LoadFlags)
    decreases p
  {
    match p
    case NoPair => true
    case Pair(b, t, k, l, r, n, a, more) =>
      && Blank(b) && StringText(t, k) && 0 !in k && Blank(l) && Blank(r) && Right(n, lf) && Blank(a)
      && (lf.unique ==> !HasMember(seen, k)) && RightPairs(more, SetMember(seen, k, Value(n)), lf)
  }

  /** The text is value `v` in some layout, with blanks around it; without JSON_DECODE_ANY only
      an array or object will do. */
  ghost predicate Written(s: Bytes, lf: LoadFlags, v: Json) {
    exists w: Bytes, n: Node, w': Bytes ::
      && Blank(w) && Blank(w') && s == w + (Flat(n) + w') && Right(n, lf) && Value(n) == v
      && (lf.any || n.Array? || n.Object?)
  }

  // ---------------------------------------------------------------- tokens

  lemma BlankIsSpace(w: Bytes)
    ensures Blank(w) <==> forall i :: 0 <= i < |w| ==> IsSpace(w[i])
  {
  }

  lemma {:induction false} PlacesIs(d: Bytes)
    requires forall i :: 0 <= i < |d| ==> IsDigit(d[i])
    ensures Places(d) == NatOf(d)
    decreases |d|
  {
    if |d| != 0 {
      PlacesIs(d[1..]);
      NatFront(d);
    }
  }

  lemma {:induction false} NatFront(d: Bytes)
    requires 0 < |d| && forall i :: 0 <= i < |d| ==> IsDigit(d[i])
    ensures NatOf(d) == (d[0] - 48) * Power10(|d| - 1) + NatOf(d[1..])
    decreases |d|
  {
    var n := |d| - 1;
    NatLast(d);
    if n == 0 {
      assert NatOf(d[..0]) == 0 && NatOf(d[1..]) == 0 && Power10(0) == 1;
    } else {
      NatFront(d[..n]);
      NatLast(d[1..]);
      assert d[1..][..n - 1] == d[..n][1..] && d[1..][n - 1] == d[n];
      assert Power10(n) == 10 * Power10(n - 1);
      hide NatOf, Power10;
      TenTimes(d[0] - 48, Power10(n - 1), NatOf(d[..n][1..]), d[n] - 48);
    }
  }

  lemma NatLast(d: Bytes)
    requires 0 < |d| && forall i :: 0 <= i < |d| ==> IsDigit(d[i])
    ensures IsDigit(d[|d| - 1]) && NatOf(d) == NatOf(d[..|d| - 1]) * 10 + (d[|d| - 1] - 48)
  {
  }

  lemma TenTimes(x: int, p: int, r: int, y: int)
    ensures (x * p + r) * 10 + y == x * (10 * p) + (r * 10 + y)
  {
  }

  /** The token that text `t` stands for. */
  ghost predicate TokenText(t: Bytes, k: Token) {
    match k
    case Punct(c) => t == [c] && IsPunct(c)
    case Text_(x) => StringText(t, x)
    case Number(i) => Integer(t, i)
    case TrueToken => t == [116, 114, 117, 101]
    case FalseToken => t == [102, 97, 108, 115, 101]
    case NullToken => t == [110, 117, 108, 108]
    case _ => false
  }

  lemma LexInteger(t: Bytes, i: int, tail: Bytes)
    requires Integer(t, i) && Delimited(tail)
    ensures Lex(t + tail) == Lexed(Number(i), tail)
  {
    hide LexDigits, Places;
    if t[0] == MINUS {
      var d := t[1..];
      LexUnsigned(d, true, tail);
      assert t + tail == [MINUS] + (d + tail) && ([MINUS] + (d + tail))[1..] == d + tail;
    } else {
      LexUnsigned(t, false, tail);
      assert (t + tail)[0] == t[0];
    }
  }

  lemma LexUnsigned(d: Bytes, negative: bool, tail: Bytes)
    requires Unsigned(d) && Delimited(tail)
    requires var i := if negative then -Places(d) else Places(d); MIN_INT <= i <= MAX_INT
    ensures LexDigits(d + tail, negative) == Lexed(Number(if negative then -Places(d) else Places(d)), tail)
  {
    hide DigitRun, NatOf, Places;
    assert forall i :: 0 <= i < |d| ==> IsDigit(d[i]);
    PlacesIs(d);
    assert |tail| == 0 || !IsDigit(tail[0]);
    RunOf(d, tail);
    FrontOf(d, tail);
    DelimiterIsNone(tail);
  }

  /** A string token, whatever follows. */
  lemma LexStringText(t: Bytes, x: Bytes, tail: Bytes)
    requires StringText(t, x)
    ensures Lex(t + tail) == Lexed(Text_(x), tail)
  {
    hide Scan, Decode, Spells, LexString, Lex;
    var p := t[1..|t| - 1];
    var cs: seq<nat> :|
      Spells(p, cs) && (forall i :: 0 <= i < |cs| ==> Scalar(cs[i])) && x == EncodeAll(cs);
    SpellsReads(p, cs, tail);
    QuoteFront(p, tail);
    ClosedString(p + [QUOTE] + tail, |p|, x);
    LexQuote(p + [QUOTE] + tail);
    assert t == [QUOTE] + p + [QUOTE];
  }

  /** A token is lexed off its text, behind any blanks. */
  lemma TokenLexed(w: Bytes, t: Bytes, k: Token, tail: Bytes)
    requires Blank(w) && TokenText(t, k) && (k.Punct? || k.Text_? || Delimited(tail))
    ensures Lex(w + (t + tail)) == Lexed(k, tail)
  {
    hide Lex, Integer, StringText, Delimited;
    BlankIsSpace(w);
    LexBlank(w, t + tail);
    match k
    case Punct(c) => LexPunct(c, tail);
    case Text_(x) => LexStringText(t, x, tail);
    case Number(i) => LexInteger(t, i, tail);
    case TrueToken => LexWord(t, tail);
    case FalseToken => LexWord(t, tail);
    case NullToken => LexWord(t, tail);
  }

  // ---------------------------------------------------------------- written values are read

  /** Blanks, then something that may follow a value. */
  lemma BlankDelimits(w: Bytes, c: nat, tail: Bytes)
    requires Blank(w) && c in {COMMA, RBRACKET, RBRACE}
    ensures Delimited(w + ([c] + tail)) && Lex(w + ([c] + tail)) == Lexed(Punct(c), tail)
  {
    TokenLexed(w, [c], Punct(c), tail);
    hide Lex;
  }

  ghost function TokenOf(v: Json): Token {
    match v
    case Null => NullToken
    case True => TrueToken
    case False => FalseToken
    case Int(i) => Number(i)
    case Str(x) => Text_(x)
    case _ => Invalid
  }

  lemma WordReads(t: Bytes, v: Json, lf: LoadFlags, tail: Bytes)
    requires WordText(t, v) && (v.Str? ==> lf.nul || 0 !in v.s) && Delimited(tail)
    ensures Reads(t + tail, lf, v, tail)
  {
    hide Lex, Integer, StringText, Delimited;
    TokenLexed([], t, TokenOf(v), tail);
    assert [] + (t + tail) == t + tail;
  }

  lemma ReadsBehind(w: Bytes, s: Bytes, lf: LoadFlags, v: Json, tail: Bytes)
    requires Blank(w) && Reads(s, lf, v, tail)
    ensures Reads(w + s, lf, v, tail)
  {
    hide Reads;
    BlankIsSpace(w);
    ReadsBlank(w, s, lf);
  }

  lemma ItemsBehind(w: Bytes, s: Bytes, lf: LoadFlags, v: Items, tail: Bytes)
    requires Blank(w) && ReadsItems(s, lf, v, tail)
    ensures ReadsItems(w + s, lf, v, tail)
  {
    hide ReadsItems;
    BlankIsSpace(w);
    ReadsBlank(w, s, lf);
  }

  lemma {:induction false} NodeReads(n: Node, lf: LoadFlags, tail: Bytes)
    requires Right(n, lf) && Delimited(tail)
    ensures Reads(Flat(n) + tail, lf, Value(n), tail)
    decreases n
  {
    hide Reads, ReadsItems, ReadsMembers, Delimited, WordText, Lex;
    match n {
      case Word(t, v) => WordReads(t, v, lf, tail);
      case Array(w, e) =>
        var close := [RBRACKET] + tail;
        Regroup(LBRACKET, w, FlatElements(e), RBRACKET, tail);
        if e.NoElement? {
          TokenLexed(w, [RBRACKET], Punct(RBRACKET), tail);
          assert w + ([] + close) == w + close;
          EmptyArray(w + close, lf, tail);
        } else {
          ElementsRead(e, lf, tail);
          assert w + (FlatElements(e) + close) == FlatElements(e) + close;
          FullArray(FlatElements(e) + close, lf, Values(e), tail);
        }
      case Object(w, p) =>
        var close := [RBRACE] + tail;
        Regroup(LBRACE, w, FlatPairs(p), RBRACE, tail);
        if p.NoPair? {
          TokenLexed(w, [RBRACE], Punct(RBRACE), tail);
          assert w + ([] + close) == w + close;
          EmptyObject(w + close, lf, tail);
        } else {
          PairsRead(p, End, lf, tail);
          assert w + (FlatPairs(p) + close) == FlatPairs(p) + close;
          FullObject(FlatPairs(p) + close, lf, Bindings(End, p), tail);
        }
    }
  }

  lemma Regroup(o: nat, w: Bytes, inside: Bytes, c: nat, tail: Bytes)
    ensures [o] + (w + (inside + [c])) + tail == [o] + (w + (inside + ([c] + tail)))
  {
  }

  lemma EmptyArray(s: Bytes, lf: LoadFlags, tail: Bytes)
    requires Lex(s) == Lexed(Punct(RBRACKET), tail)
    ensures Reads([LBRACKET] + s, lf, Arr(Nil), tail)
  {
    hide Lex;
    LexPunct(LBRACKET, s);
    Brackets(s, lf);
  }

  lemma EmptyObject(s: Bytes, lf: LoadFlags, tail: Bytes)
    requires Lex(s) == Lexed(Punct(RBRACE), tail)
    ensures Reads([LBRACE] + s, lf, Obj(End), tail)
  {
    hide Lex;
    LexPunct(LBRACE, s);
    Brackets(s, lf);
  }

  lemma FullArray(s: Bytes, lf: LoadFlags, items: Items, tail: Bytes)
    requires ReadsItems(s, lf, items, tail)
    ensures Reads([LBRACKET] + s, lf, Arr(items), tail)
  {
    hide Lex, ParseItems, ParseArray, ParseValue, ReadsItems;
    LexPunct(LBRACKET, s);
    Brackets(s, lf);
    ArrayOf(s, lf, items, tail);
  }

  lemma FullObject(s: Bytes, lf: LoadFlags, members: Members, tail: Bytes)
    requires ReadsMembers(s, lf, End, members, tail)
    ensures Reads([LBRACE] + s, lf, Obj(members), tail)
  {
    hide Lex, ParseMembers, ParseObject, ParseValue, ReadsMembers;
    LexPunct(LBRACE, s);
    Brackets(s, lf);
    ObjectOf(s, lf, members, tail);
  }

  lemma {:induction false} ElementsRead(e: Elements, lf: LoadFlags, tail: Bytes)
    requires e.Element? && RightElements(e, lf)
    ensures ReadsItems(FlatElements(e) + ([RBRACKET] + tail), lf, Values(e), tail)
    decreases e
  {
    hide Reads, ReadsItems, Delimited, Lex, Right, Flat, Value;
    var Element(b, n, a, more) := e;
    var close := [RBRACKET] + tail;
    var t := Flat(n);
    if more.NoElement? {
      BlankDelimits(a, RBRACKET, tail);
      NodeReads(n, lf, a + close);
      ReadsBehind(b, t + (a + close), lf, Value(n), a + close);
      LastItem(b + (t + (a + close)), lf, Value(n), a + close, tail);
      assert FlatElements(e) + close == b + (t + (a + close));
    } else {
      ElementsRead(more, lf, tail);
      var next := FlatElements(more) + close;
      BlankDelimits(a, COMMA, next);
      NodeReads(n, lf, a + ([COMMA] + next));
      ReadsBehind(b, t + (a + ([COMMA] + next)), lf, Value(n), a + ([COMMA] + next));
      ElementThen(b + (t + (a + ([COMMA] + next))), lf, Value(n), a + ([COMMA] + next), next, Values(more), tail);
      CommaGroup(b, t, a, FlatElements(more), close);
    }
  }

  lemma CommaGroup(b: Bytes, t: Bytes, a: Bytes, m: Bytes, close: Bytes)
    ensures b + (t + (a + ([COMMA] + m))) + close == b + (t + (a + ([COMMA] + (m + close))))
  {
  }

  lemma ElementThen(s: Bytes, lf: LoadFlags, v: Json, after: Bytes, next: Bytes, items: Items, tail: Bytes)
    requires Reads(s, lf, v, after) && Lex(after) == Lexed(Punct(COMMA), next) && ReadsItems(next, lf, items, tail)
    ensures ReadsItems(s, lf, Cons(v, items), tail)
  {
    ReadsNotClosing(s, lf, v, after);
    hide Lex, ParseValue;
  }

  lemma {:induction false} PairsRead(p: Pairs, seen: Members, lf: LoadFlags, tail: Bytes)
    requires p.Pair? && RightPairs(p, seen, lf)
    ensures ReadsMembers(FlatPairs(p) + ([RBRACE] + tail), lf, seen, Bindings(seen, p), tail)
    decreases p
  {
    hide Reads, ReadsMembers, Delimited, Lex, Right, Flat, Value, StringText, SetMember, HasMember;
    var Pair(b, t, k, l, r, n, a, more) := p;
    var close := [RBRACE] + tail;
    var now := SetMember(seen, k, Value(n));
    if more.NoPair? {
      var after := a + close;
      BlankDelimits(a, RBRACE, tail);
      NodeReads(n, lf, after);
      var s := b + (t + (l + ([COLON] + (r + (Flat(n) + after)))));
      PairReads(b, t, k, l, r, Flat(n) + after, lf, seen, Value(n), after);
      LastMember(s, lf, seen, k, now, after, tail);
      PairGroup(b, t, l, r, Flat(n), a, [], close);
    } else {
      PairsRead(more, now, lf, tail);
      var next := FlatPairs(more) + close;
      var after := a + ([COMMA] + next);
      BlankDelimits(a, COMMA, next);
      NodeReads(n, lf, after);
      var s := b + (t + (l + ([COLON] + (r + (Flat(n) + after)))));
      PairReads(b, t, k, l, r, Flat(n) + after, lf, seen, Value(n), after);
      PairThen(s, lf, seen, k, now, after, next, Bindings(seen, p), tail);
      PairGroup(b, t, l, r, Flat(n), a, [COMMA] + FlatPairs(more), close);
      assert [COMMA] + FlatPairs(more) + close == [COMMA] + next;
    }
  }

  lemma PairGroup(b: Bytes, t: Bytes, l: Bytes, r: Bytes, n: Bytes, a: Bytes, m: Bytes, close: Bytes)
    ensures b + (t + (l + ([COLON] + (r + (n + (a + m)))))) + close ==
            b + (t + (l + ([COLON] + (r + (n + (a + (m + close)))))))
    ensures [] + close == close
  {
  }

  /** One member up to what follows its value. */
  lemma PairReads(b: Bytes, t: Bytes, k: Bytes, l: Bytes, r: Bytes, s: Bytes, lf: LoadFlags, seen: Members, v: Json,
                  after: Bytes)
    requires Blank(b) && StringText(t, k) && 0 !in k && Blank(l) && Blank(r) && (lf.unique ==> !HasMember(seen, k))
    requires Reads(s, lf, v, after)
    ensures var x := Lex(b + (t + (l + ([COLON] + (r + s)))));
      x.token == Text_(k) && ParseMember(x.token, x.rest, seen, lf) == Some(Parsed(SetMember(seen, k, v), after))
  {
    hide Lex, ParseValue, StringText, HasMember, SetMember, Blank;
    TokenLexed(b, t, Text_(k), l + ([COLON] + (r + s)));
    TokenLexed(l, [COLON], Punct(COLON), r + s);
    ReadsBehind(r, s, lf, v, after);
  }

  lemma PairThen(s: Bytes, lf: LoadFlags, seen: Members, k: Bytes, now: Members, after: Bytes, next: Bytes,
                 all: Members, tail: Bytes)
    requires Lex(s).token == Text_(k) && ParseMember(Lex(s).token, Lex(s).rest, seen, lf) == Some(Parsed(now, after))
    requires Lex(after) == Lexed(Punct(COMMA), next) && ReadsMembers(next, lf, now, all, tail)
    ensures ReadsMembers(s, lf, seen, all, tail)
  {
    hide Lex, ParseMember;
  }

  // ---------------------------------------------------------------- what is read is written

  /** Text that is left to be read. */
  ghost predicate Clean(s: Bytes) {
    IsBytes(s) && Valid(s)
  }

  lemma CleanOn(s: Bytes, n: nat)
    requires Clean(s) && n <= |s| && forall i :: 0 <= i < n ==> s[i] < 0x80
    ensures Clean(s[n..])
  {
    ValidOn(s, n);
    hide Valid;
  }

  /** The scanner stops at the closing quote, and looks no further. */
  lemma {:induction false} ScanCut(s: Bytes, n: nat)
    requires Scan(s) == Some(n)
    ensures n < |s| && s[n] == QUOTE && Scan(s[..n + 1]) == Some(n)
    decreases |s|
  {
    if s[0] != QUOTE {
      var k := if s[0] != BACKSLASH then 1 else if s[1] == LETTER_U then 6 else 2;
      ScanCut(s[k..], n - k);
      var t := s[..n + 1];
      SliceOn(s, k, n);
      assert forall i :: 0 <= i < |t| ==> t[i] == s[i];
      assert k == 6 ==> FourHex(t, 2);
    }
  }

  lemma SliceOn(s: Bytes, k: nat, n: nat)
    requires k <= n < |s|
    ensures s[..n + 1][k..] == s[k..][..n - k + 1]
  {
  }

  lemma QuoteCut(s: Bytes, n: nat)
    requires n < |s| && s[n] == QUOTE
    ensures s[..n + 1] == s[..n] + [QUOTE] && s == s[..n] + ([QUOTE] + s[n + 1..]) && s[n..][1..] == s[n + 1..]
    ensures var t := [QUOTE] + s[..n] + [QUOTE]; t[1..|t| - 1] == s[..n]
  {
  }

  /** A string token. */
  lemma StringIs(s: Bytes, n: nat, x: Bytes)
    requires Clean(s) && Scan(s) == Some(n) && n <= |s| && Decode(s[..n]) == Some(x)
    ensures n < |s| && StringText([QUOTE] + s[..n] + [QUOTE], x) && s == s[..n] + ([QUOTE] + s[n + 1..])
    ensures Clean(s[n + 1..])
  {
    hide Scan, Decode, Means, Valid;
    ScanCut(s, n);
    QuoteCut(s, n);
    CutValid(s, n);
    DecodeExact(s[..n], x);
    CleanOn(s[n..], 1);
    hide IsBytes;
  }

  /** A number token. */
  lemma NumberIs(s: Bytes, negative: bool)
    requires Clean(s) && LexDigits(s, negative).token.Number?
    ensures var n := DigitRun(s); var l := LexDigits(s, negative);
      && Unsigned(s[..n]) && l.rest == s[n..] && l.token.i == (if negative then -Places(s[..n]) else Places(s[..n]))
      && MIN_INT <= l.token.i <= MAX_INT && Clean(s[n..])
  {
    hide Valid, NatOf, Places;
    var n := DigitRun(s);
    PlacesIs(s[..n]);
    CleanOn(s, n);
  }

  /** What the lexer gives is the text of a token behind blanks. */
  lemma {:induction false} LexIs(s: Bytes) returns (w: Bytes, t: Bytes)
    requires Clean(s) && Lex(s).token !in {Eof, Real, Invalid}
    ensures Blank(w) && s == w + (t + Lex(s).rest) && TokenText(t, Lex(s).token) && Clean(Lex(s).rest)
    decreases |s|
  {
    FirstByte(s);
    SpaceFirst(s);
    hide Clean, TokenText, Lex;
    if IsSpace(s[0]) {
      CleanOn(s, 1);
      var v;
      v, t := LexIs(s[1..]);
      w := [s[0]] + v;
      assert s == [s[0]] + s[1..];
      Group3([s[0]], v, t + Lex(s).rest);
    } else {
      w := [];
      t := TokenIs(s);
      assert [] + (t + Lex(s).rest) == t + Lex(s).rest;
    }
  }

  lemma SpaceFirst(s: Bytes)
    requires 0 < |s|
    ensures IsSpace(s[0]) ==> Lex(s) == Lex(s[1..]) && s[0] < 0x80
  {
    hide LexString, LexDigits, Keyword;
  }

  lemma FirstByte(s: Bytes)
    requires Lex(s).token != Eof
    ensures 0 < |s|
  {
  }

  lemma TokenIs(s: Bytes) returns (t: Bytes)
    requires Clean(s) && 0 < |s| && !IsSpace(s[0]) && Lex(s).token !in {Eof, Real, Invalid}
    ensures s == t + Lex(s).rest && TokenText(t, Lex(s).token) && Clean(Lex(s).rest)
  {
    hide Clean, LexString, LexDigits, Keyword, StringText, Integer;
    if IsPunct(s[0]) {
      t := [s[0]];
      CleanOn(s, 1);
    } else if s[0] == QUOTE {
      CleanOn(s, 1);
      t := QuotedToken(s[1..]);
      assert s == [QUOTE] + s[1..];
    } else if s[0] == MINUS || IsDigit(s[0]) {
      t := NumberToken(s);
    } else {
      t := KeywordToken(s);
    }
  }

  lemma QuotedToken(s: Bytes) returns (t: Bytes)
    requires Clean(s) && LexString(s).token != Invalid
    ensures LexString(s).token.Text_? && [QUOTE] + s == t + LexString(s).rest
    ensures StringText(t, LexString(s).token.s) && Clean(LexString(s).rest)
  {
    hide Clean, Scan, Decode, StringText;
    var n := Scan(s).value;
    StringIs(s, n, Decode(s[..n]).value);
    t := [QUOTE] + s[..n] + [QUOTE];
    assert t + s[n + 1..] == [QUOTE] + (s[..n] + ([QUOTE] + s[n + 1..]));
  }

  lemma NumberToken(s: Bytes) returns (t: Bytes)
    requires Clean(s) && 0 < |s| && (s[0] == MINUS || IsDigit(s[0])) && Lex(s).token !in {Eof, Real, Invalid}
    ensures Lex(s).token.Number? && s == t + Lex(s).rest && Integer(t, Lex(s).token.i) && Clean(Lex(s).rest)
  {
    NumberLex(s);
    hide Clean, DigitRun, NatOf, Places, Lex, LexDigits;
    if s[0] == MINUS {
      CleanOn(s, 1);
      DigitsToken(s[1..], true);
      NumberIs(s[1..], true);
      t := [MINUS] + s[1..][..DigitRun(s[1..])];
      SignedText(s, DigitRun(s[1..]));
    } else {
      DigitsToken(s, false);
      NumberIs(s, false);
      t := s[..DigitRun(s)];
      UnsignedFront(s, DigitRun(s));
    }
  }

  lemma NumberLex(s: Bytes)
    requires 0 < |s|
    ensures s[0] == MINUS ==> Lex(s) == LexDigits(s[1..], true)
    ensures IsDigit(s[0]) ==> Lex(s) == LexDigits(s, false)
  {
    hide LexDigits;
  }

  lemma SignedText(s: Bytes, n: nat)
    requires 0 < |s| && s[0] == MINUS && n <= |s[1..]|
    ensures var t := [MINUS] + s[1..][..n]; t[1..] == s[1..][..n] && s == t + s[1..][n..] && t[0] == MINUS
  {
  }

  lemma UnsignedFront(s: Bytes, n: nat)
    requires n <= |s| && Unsigned(s[..n])
    ensures s[..n][0] != MINUS
  {
  }

  lemma DigitsToken(s: Bytes, negative: bool)
    ensures LexDigits(s, negative).token in {Real, Invalid} || LexDigits(s, negative).token.Number?
  {
    hide DigitRun, NatOf;
  }

  lemma KeywordToken(s: Bytes) returns (t: Bytes)
    requires Clean(s) && 0 < |s| && !IsSpace(s[0]) && !IsPunct(s[0]) && s[0] != QUOTE && s[0] != MINUS && !IsDigit(s[0])
    requires Lex(s).token !in {Eof, Real, Invalid}
    ensures s == t + Lex(s).rest && TokenText(t, Lex(s).token) && Clean(Lex(s).rest)
  {
    hide Clean, AlphaRun;
    var n := AlphaRun(s);
    t := s[..n];
    CleanOn(s, n);
  }

  lemma {:induction false} EofIsBlank(s: Bytes)
    requires Lex(s).token == Eof
    ensures Blank(s)
    decreases |s|
  {
    if |s| != 0 {
      NotEof(s);
      EofIsBlank(s[1..]);
    }
  }

  lemma NotEof(s: Bytes)
    requires 0 < |s| && Lex(s).token == Eof
    ensures IsSpace(s[0]) && Lex(s[1..]).token == Eof
  {
    hide LexString, LexDigits, Keyword;
    StringNotEof(s[1..]);
    NumberNotEof(s, false);
    NumberNotEof(s[1..], true);
    WordNotEof(s[..AlphaRun(s)]);
  }

  lemma StringNotEof(s: Bytes)
    ensures LexString(s).token != Eof
  {
    hide Scan, Decode;
  }

  lemma NumberNotEof(s: Bytes, negative: bool)
    ensures LexDigits(s, negative).token != Eof
  {
    hide DigitRun, NatOf;
  }

  lemma WordNotEof(s: Bytes)
    ensures Keyword(s) != Eof
  {
  }

  // ---------------------------------------------------------------- values

  /** `s` is value `v` in layout `n` behind blanks `w`, with `rest` behind it. */
  ghost predicate Layout(s: Bytes, w: Bytes, n: Node, lf: LoadFlags, v: Json, rest: Bytes) {
    Blank(w) && s == w + (Flat(n) + rest) && Right(n, lf) && Value(n) == v && Clean(rest)
  }

  lemma {:induction false} NodeOf(s: Bytes, lf: LoadFlags) returns (w: Bytes, n: Node)
    requires Clean(s) && ParseValue(Lex(s).token, Lex(s).rest, lf).Some?
    ensures var p := ParseValue(Lex(s).token, Lex(s).rest, lf).value; Layout(s, w, n, lf, p.value, p.rest)
    ensures Lex(s).token == Punct(LBRACKET) <==> n.Array?
    ensures Lex(s).token == Punct(LBRACE) <==> n.Object?
    decreases |s|, 0
  {
    hide Lex, Clean, TokenText, RightElements, RightPairs, FlatElements, FlatPairs, Blank, ParseItems, ParseMembers;
    var l := Lex(s);
    ValueToken(l.token, l.rest, lf);
    var t: Bytes;
    w, t := LexIs(s);
    LexShorter(s);
    if l.token == Punct(LBRACKET) {
      Brackets(l.rest, lf);
      n := ArrayNode(l.rest, lf);
      assert Flat(n) == [LBRACKET] + (n.blank + (FlatElements(n.elements) + [RBRACKET]));
      var p := ParseArray(l.rest, lf).value;
      OpenLayout(s, w, t, LBRACKET, l.rest, n.blank, FlatElements(n.elements), RBRACKET, p.rest);
    } else if l.token == Punct(LBRACE) {
      Brackets(l.rest, lf);
      n := ObjectNode(l.rest, lf);
      assert Flat(n) == [LBRACE] + (n.blank + (FlatPairs(n.pairs) + [RBRACE]));
      var p := ParseObject(l.rest, lf).value;
      OpenLayout(s, w, t, LBRACE, l.rest, n.blank, FlatPairs(n.pairs), RBRACE, p.rest);
    } else {
      n := WordNode(t, l.token, l.rest, lf);
    }
  }

  lemma OpenLayout(s: Bytes, w: Bytes, t: Bytes, o: nat, inside: Bytes, blank: Bytes, flat: Bytes, c: nat, rest: Bytes)
    requires s == w + (t + inside) && TokenText(t, Punct(o)) && inside == blank + (flat + ([c] + rest))
    ensures s == w + ([o] + (blank + (flat + [c])) + rest)
  {
    Regroup(o, blank, flat, c, rest);
  }

  lemma LexShorter(s: Bytes)
    requires Lex(s).token != Eof
    ensures |Lex(s).rest| < |s|
  {
    hide Lex;
  }

  /** Only these tokens start a value. */
  lemma ValueToken(k: Token, s: Bytes, lf: LoadFlags)
    requires ParseValue(k, s, lf).Some?
    ensures k !in {Eof, Real, Invalid} && (k.Punct? ==> k.c == LBRACKET || k.c == LBRACE)
  {
    hide ParseArray, ParseObject;
  }

  lemma WordNode(t: Bytes, k: Token, s: Bytes, lf: LoadFlags) returns (n: Node)
    requires TokenText(t, k) && !k.Punct? && ParseValue(k, s, lf).Some?
    ensures n.Word? && n.text == t && Right(n, lf) && ParseValue(k, s, lf) == Some(Parsed(Value(n), s))
  {
    hide StringText, Integer;
    n := Word(t, ParseValue(k, s, lf).value.value);
  }

  /** What follows the opening bracket. */
  lemma {:induction false} ArrayNode(s: Bytes, lf: LoadFlags) returns (n: Node)
    requires Clean(s) && ParseArray(s, lf).Some?
    ensures var p := ParseArray(s, lf).value;
      && n.Array? && Right(n, lf) && Value(n) == p.value && Clean(p.rest)
      && s == n.blank + (FlatElements(n.elements) + ([RBRACKET] + p.rest))
    decreases |s|, 2
  {
    hide Lex, Clean, ParseItems, Right, FlatElements, TokenText;
    var l := Lex(s);
    if l.token == Punct(RBRACKET) {
      var w, t := LexIs(s);
      n := Array(w, NoElement);
      EmptyRight(w, lf);
      PunctText(t, RBRACKET);
      assert s == w + ([] + ([RBRACKET] + l.rest));
    } else {
      var e := ElementsOf(s, lf);
      n := Array([], e);
      FullRight(e, lf);
      assert s == [] + (FlatElements(e) + ([RBRACKET] + ParseArray(s, lf).value.rest));
    }
  }

  lemma PunctText(t: Bytes, c: nat)
    requires TokenText(t, Punct(c))
    ensures t == [c]
  {
  }

  lemma EmptyRight(w: Bytes, lf: LoadFlags)
    requires Blank(w)
    ensures Right(Array(w, NoElement), lf) && Value(Array(w, NoElement)) == Arr(Nil) && FlatElements(NoElement) == []
    ensures Right(Object(w, NoPair), lf) && Value(Object(w, NoPair)) == Obj(End) && FlatPairs(NoPair) == []
  {
  }

  lemma FullRight(e: Elements, lf: LoadFlags)
    requires RightElements(e, lf)
    ensures Right(Array([], e), lf)
  {
  }

  lemma FullRightPairs(p: Pairs, lf: LoadFlags)
    requires RightPairs(p, End, lf)
    ensures Right(Object([], p), lf)
  {
  }

  lemma {:induction false} ElementsOf(s: Bytes, lf: LoadFlags) returns (e: Elements)
    requires Clean(s) && Lex(s).token != Eof && ParseItems(Lex(s).token, Lex(s).rest, lf).Some?
    ensures var q := ParseItems(Lex(s).token, Lex(s).rest, lf).value;
      && e.Element? && RightElements(e, lf) && Values(e) == q.value && Clean(q.rest)
      && s == FlatElements(e) + ([RBRACKET] + q.rest)
    decreases |s|, 1
  {
    hide Lex, Clean, ParseValue, Right, Flat, Value, Blank, TokenText;
    var l := Lex(s);
    var b, n := NodeOf(s, lf);
    var p := ParseValue(l.token, l.rest, lf).value;
    var k := Lex(p.rest);
    var a, t := LexIs(p.rest);
    PunctText(t, k.token.c);
    ValueShorter(l.token, l.rest, lf);
    LexShorter(s);
    LexShorter(p.rest);
    if k.token == Punct(COMMA) {
      var more := ElementsOf(k.rest, lf);
      e := Element(b, n, a, more);
      var q := ParseItems(Lex(k.rest).token, Lex(k.rest).rest, lf).value;
      CommaGroup(b, Flat(n), a, FlatElements(more), [RBRACKET] + q.rest);
    } else {
      e := Element(b, n, a, NoElement);
      assert FlatElements(e) == b + (Flat(n) + (a + []));
      LastGroup(b, Flat(n), a, [RBRACKET] + k.rest);
    }
  }

  lemma LastGroup(b: Bytes, t: Bytes, a: Bytes, close: Bytes)
    ensures b + (t + (a + [])) + close == b + (t + (a + close))
  {
  }

  lemma ValueShorter(k: Token, s: Bytes, lf: LoadFlags)
    requires ParseValue(k, s, lf).Some?
    ensures |ParseValue(k, s, lf).value.rest| <= |s|
  {
    hide ParseValue;
  }

  lemma {:induction false} ObjectNode(s: Bytes, lf: LoadFlags) returns (n: Node)
    requires Clean(s) && ParseObject(s, lf).Some?
    ensures var p := ParseObject(s, lf).value;
      && n.Object? && Right(n, lf) && Value(n) == p.value && Clean(p.rest)
      && s == n.blank + (FlatPairs(n.pairs) + ([RBRACE] + p.rest))
    decreases |s|, 3
  {
    hide Lex, Clean, ParseMembers, Right, FlatPairs, TokenText;
    var l := Lex(s);
    if l.token == Punct(RBRACE) {
      var w, t := LexIs(s);
      n := Object(w, NoPair);
      EmptyRight(w, lf);
      PunctText(t, RBRACE);
      assert s == w + ([] + ([RBRACE] + l.rest));
    } else {
      var p := PairsOf(s, End, lf);
      n := Object([], p);
      FullRightPairs(p, lf);
      assert s == [] + (FlatPairs(p) + ([RBRACE] + ParseObject(s, lf).value.rest));
    }
  }

  /** One member in its layout, up to what follows its value. */
  lemma {:induction false} MemberOf(s: Bytes, seen: Members, lf: LoadFlags)
    returns (b: Bytes, t: Bytes, l: Bytes, r: Bytes, n: Node)
    requires Clean(s) && Lex(s).token != Eof && ParseMember(Lex(s).token, Lex(s).rest, seen, lf).Some?
    ensures var x := Lex(s).token; var p := ParseMember(x, Lex(s).rest, seen, lf).value;
      && x.Text_? && Blank(b) && StringText(t, x.s) && 0 !in x.s && Blank(l) && Blank(r) && Right(n, lf)
      && (lf.unique ==> !HasMember(seen, x.s)) && p.value == SetMember(seen, x.s, Value(n)) && Clean(p.rest)
      && s == b + (t + (l + ([COLON] + (r + (Flat(n) + p.rest))))) && |p.rest| < |s|
    decreases |s|, 1
  {
    hide Lex, Clean, ParseValue, Right, Flat, Value, Blank, StringText, SetMember, HasMember;
    var x := Lex(s);
    b, t := LexIs(s);
    var y := Lex(x.rest);
    var c: Bytes;
    l, c := LexIs(x.rest);
    PunctText(c, COLON);
    LexShorter(s);
    LexShorter(x.rest);
    r, n := NodeOf(y.rest, lf);
    var z := Lex(y.rest);
    ValueShorter(z.token, z.rest, lf);
    ValueToken(z.token, z.rest, lf);
    LexShorter(y.rest);
  }

  lemma {:induction false} PairsOf(s: Bytes, seen: Members, lf: LoadFlags) returns (p: Pairs)
    requires Clean(s) && Lex(s).token != Eof && ParseMembers(Lex(s).token, Lex(s).rest, seen, lf).Some?
    ensures var q := ParseMembers(Lex(s).token, Lex(s).rest, seen, lf).value;
      && p.Pair? && RightPairs(p, seen, lf) && Bindings(seen, p) == q.value && Clean(q.rest)
      && s == FlatPairs(p) + ([RBRACE] + q.rest)
    decreases |s|, 2
  {
    hide Lex, Clean, ParseMember, Right, Flat, Value, Blank, StringText, SetMember, HasMember, TokenText, RightPairs,
         Bindings, FlatPairs;
    var x := Lex(s);
    var b, t, l, r, n := MemberOf(s, seen, lf);
    var m := ParseMember(x.token, x.rest, seen, lf).value;
    var k := Lex(m.rest);
    var a, u := LexIs(m.rest);
    PunctText(u, k.token.c);
    LexShorter(m.rest);
    var more := NoPair;
    if k.token == Punct(COMMA) {
      more := PairsOf(k.rest, m.value, lf);
      var q := ParseMembers(Lex(k.rest).token, Lex(k.rest).rest, m.value, lf).value;
      PairGroup(b, t, l, r, Flat(n), a, [COMMA] + FlatPairs(more), [RBRACE] + q.rest);
      Group3([COMMA], FlatPairs(more), [RBRACE] + q.rest);
    } else {
      PairGroup(b, t, l, r, Flat(n), a, [], [RBRACE] + k.rest);
      NoMorePairs(m.value, lf);
    }
    p := PairCons(seen, lf, b, t, x.token.s, l, r, n, a, more);
  }

  lemma NoMorePairs(seen: Members, lf: LoadFlags)
    ensures RightPairs(NoPair, seen, lf) && Bindings(seen, NoPair) == seen
  {
  }

  lemma PairCons(seen: Members, lf: LoadFlags, b: Bytes, t: Bytes, k: Bytes, l: Bytes, r: Bytes, n: Node, a: Bytes,
                 more: Pairs)
    returns (p: Pairs)
    requires Blank(b) && StringText(t, k) && 0 !in k && Blank(l) && Blank(r) && Right(n, lf) && Blank(a)
    requires (lf.unique ==> !HasMember(seen, k)) && RightPairs(more, SetMember(seen, k, Value(n)), lf)
    ensures p == Pair(b, t, k, l, r, n, a, more) && RightPairs(p, seen, lf)
    ensures Bindings(seen, p) == Bindings(SetMember(seen, k, Value(n)), more)
    ensures FlatPairs(p) ==
      b + (t + (l + ([COLON] + (r + (Flat(n) + (a + (if more.NoPair? then [] else [COMMA] + FlatPairs(more))))))))
  {
    hide Blank, StringText, Right, HasMember, SetMember, Value, Flat;
    p := Pair(b, t, k, l, r, n, a, more);
  }

  // ---------------------------------------------------------------- main result

  lemma BlankLexes(w: Bytes)
    requires Blank(w)
    ensures Lex(w).token == Eof && Delimited(w)
  {
    BlankIsSpace(w);
    LexBlank(w, []);
    assert w + [] == w;
  }

  lemma WrittenLoads(s: Bytes, lf: LoadFlags, w: Bytes, n: Node, w': Bytes)
    requires Valid(s) && Blank(w) && Blank(w') && s == w + (Flat(n) + w') && Right(n, lf)
    requires lf.any || n.Array? || n.Object?
    ensures Load(s, lf) == Some(Value(n))
  {
    hide Lex, ParseValue, Right, Valid, Flat, Blank, Value, Delimited;
    BlankLexes(w');
    NodeReads(n, lf, w');
    ReadsBehind(w, Flat(n) + w', lf, Value(n), w');
    if n.Array? || n.Object? {
      OpeningToken(w, n, w');
    }
  }

  lemma OpeningToken(w: Bytes, n: Node, tail: Bytes)
    requires Blank(w) && (n.Array? || n.Object?)
    ensures Lex(w + (Flat(n) + tail)).token == Punct(if n.Array? then LBRACKET else LBRACE)
  {
    hide Lex, FlatElements, FlatPairs;
    var c := if n.Array? then LBRACKET else LBRACE;
    var t := Flat(n)[1..] + tail;
    assert Flat(n) + tail == [c] + t;
    TokenLexed(w, [c], Punct(c), t);
  }

  /** `json_loadb` accepts exactly the texts that are written in the grammar (without reals), and
      gives the value that is written. */
  lemma LoadExact(s: Bytes, lf: LoadFlags, v: Json)
    requires IsBytes(s)
    ensures Load(s, lf) == Some(v) <==> Valid(s) && Written(s, lf, v)
  {
    hide Lex, ParseValue, Right, Valid, Flat, Blank, Value;
    if Load(s, lf) == Some(v) {
      var w, n := NodeOf(s, lf);
      var p := ParseValue(Lex(s).token, Lex(s).rest, lf).value;
      EofIsBlank(p.rest);
      assert Written(s, lf, v);
    }
    if Valid(s) && Written(s, lf, v) {
      var w: Bytes, n: Node, w': Bytes :|
        && Blank(w) && Blank(w') && s == w + (Flat(n) + w') && Right(n, lf) && Value(n) == v
        && (lf.any || n.Array? || n.Object?);
      WrittenLoads(s, lf, w, n, w');
    }
  }
}

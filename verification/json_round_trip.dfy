/** Parsing what was dumped gives back the value. */
module JsonRoundTrip {
  import opened Common
  import opened Utf8
  import opened JsonString
  import opened Json

  // ---------------------------------------------------------------- tokens

  /** What may follow a value. */
  predicate Delimited(tail: Bytes) {
    |tail| == 0 || tail[0] == COMMA || tail[0] == RBRACKET || tail[0] == RBRACE || IsSpace(tail[0])
  }

  lemma LexPunct(c: nat, tail: Bytes)
    requires IsPunct(c)
    ensures Lex([c] + tail) == Lexed(Punct(c), tail)
  {
    assert ([c] + tail)[1..] == tail;
  }

  lemma {:induction false} LexBlank(ws: Bytes, s: Bytes)
    requires forall i :: 0 <= i < |ws| ==> IsSpace(ws[i])
    ensures Lex(ws + s) == Lex(s)
    decreases |ws|
  {
    if |ws| == 0 {
      assert ws + s == s;
    } else {
      assert (ws + s)[1..] == ws[1..] + s && (ws + s)[0] == ws[0];
      LexBlank(ws[1..], s);
    }
  }

  lemma IndentBlank(f: Flags, depth: nat, space: bool)
    ensures forall i :: 0 <= i < |Indent(f, depth, space)| ==> IsSpace(Indent(f, depth, space)[i])
  {
  }

  lemma LexQuoted(s: Bytes, f: Flags, tail: Bytes)
    requires Valid(s) && IsBytes(s)
    ensures Lex(Quoted(s, f) + tail) == Lexed(Text_(s), tail)
  {
    hide Scan, Decode, Body, Valid;
    var b := Body(s, f);
    var t := b + [QUOTE] + tail;
    StringRoundTrip(s, f, tail);
    QuoteFront(b, tail);
    ClosedString(t, |b|, s);
    LexQuote(t);
  }

  lemma QuoteFront(b: Bytes, tail: Bytes)
    ensures var t := b + [QUOTE] + tail;
      [QUOTE] + b + [QUOTE] + tail == [QUOTE] + t && |b| < |t| && t[..|b|] == b && t[|b| + 1..] == tail
  {
  }

  lemma ClosedString(t: Bytes, n: nat, s: Bytes)
    requires n < |t| && Scan(t) == Some(n) && Decode(t[..n]) == Some(s)
    ensures LexString(t) == Lexed(Text_(s), t[n + 1..])
  {
    hide Scan, Decode;
  }

  lemma LexQuote(t: Bytes)
    ensures Lex([QUOTE] + t) == LexString(t)
  {
    hide LexString;
    assert ([QUOTE] + t)[1..] == t;
  }

  // ---------------------------------------------------------------- numbers

  lemma {:induction false} DigitsAreDigits(n: nat)
    ensures forall i :: 0 <= i < |Digits(n)| ==> IsDigit(Digits(n)[i])
    ensures NatOf(Digits(n)) == n
    ensures Digits(n)[0] == 48 <==> n == 0
    ensures n != 0 || |Digits(n)| == 1
  {
    if n >= 10 {
      DigitsAreDigits(n / 10);
      var r := Digits(n);
      assert r[..|r| - 1] == Digits(n / 10);
      assert r[0] == Digits(n / 10)[0];
    } else {
      assert NatOf([48 + n][..0]) == 0;
    }
  }

  lemma {:induction false} RunOf(a: Bytes, tail: Bytes)
    requires (forall i :: 0 <= i < |a| ==> IsDigit(a[i])) && (|tail| == 0 || !IsDigit(tail[0]))
    ensures DigitRun(a + tail) == |a|
    decreases |a|
  {
    if |a| == 0 {
      assert a + tail == tail;
    } else {
      assert (a + tail)[1..] == a[1..] + tail;
      RunOf(a[1..], tail);
    }
  }

  lemma LexDigitsOf(n: nat, negative: bool, tail: Bytes)
    requires Delimited(tail) && (if negative then 0 - n >= MIN_INT else n <= MAX_INT)
    ensures LexDigits(Digits(n) + tail, negative) == Lexed(Number(if negative then 0 - n else n), tail)
    ensures |Digits(n)| != 0 && IsDigit(Digits(n)[0])
  {
    hide Digits, DigitRun, NatOf;
    var d := Digits(n);
    DigitsAreDigits(n);
    RunOf(d, tail);
    FrontOf(d, tail);
    DelimiterIsNone(tail);
  }

  lemma FrontOf(d: Bytes, tail: Bytes)
    requires |d| != 0
    ensures var t := d + tail;
      t[..|d|] == d && t[|d|..] == tail && t[0] == d[0] && (|d| < |t| <==> |tail| != 0)
        && (|tail| != 0 ==> t[|d|] == tail[0])
  {
  }

  lemma DelimiterIsNone(tail: Bytes)
    requires Delimited(tail)
    ensures |tail| == 0 || !(tail[0] == 46 || tail[0] == 69 || tail[0] == 101)
  {
  }

  lemma LexNumber(i: int, tail: Bytes)
    requires MIN_INT <= i <= MAX_INT && Delimited(tail)
    ensures Lex(Decimal(i) + tail) == Lexed(Number(i), tail)
  {
    hide Digits, LexDigits;
    if i < 0 {
      LexDigitsOf(-i, true, tail);
      var t := Digits(-i) + tail;
      assert Decimal(i) + tail == [MINUS] + t && ([MINUS] + t)[1..] == t;
    } else {
      LexDigitsOf(i, false, tail);
      assert (Digits(i) + tail)[0] == Digits(i)[0];
    }
  }

  // ---------------------------------------------------------------- keywords

  lemma {:induction false} AlphaOf(a: Bytes, tail: Bytes)
    requires (forall i :: 0 <= i < |a| ==> IsAlpha(a[i])) && (|tail| == 0 || !IsAlpha(tail[0]))
    ensures AlphaRun(a + tail) == |a|
    decreases |a|
  {
    if |a| == 0 {
      assert a + tail == tail;
    } else {
      assert (a + tail)[1..] == a[1..] + tail;
      AlphaOf(a[1..], tail);
    }
  }

  lemma LexWord(a: Bytes, tail: Bytes)
    requires 0 < |a| && (forall i :: 0 <= i < |a| ==> IsAlpha(a[i])) && Delimited(tail)
    ensures Lex(a + tail) == Lexed(Keyword(a), tail)
  {
    AlphaOf(a, tail);
    var t := a + tail;
    assert t[..|a|] == a && t[|a|..] == tail && IsAlpha(t[0]);
    hide AlphaRun, Keyword;
  }

  // ---------------------------------------------------------------- values

  /** The value is parsed off the front of `s`, which leaves `tail`. */
  ghost predicate Reads(s: Bytes, lf: LoadFlags, v: Json, tail: Bytes) {
    var l := Lex(s);
    l.token != Eof && ParseValue(l.token, l.rest, lf) == Some(Parsed(v, tail))
  }

  ghost predicate ReadsItems(s: Bytes, lf: LoadFlags, items: Items, tail: Bytes) {
    var l := Lex(s);
    l.token != Eof && l.token != Punct(RBRACKET) && ParseItems(l.token, l.rest, lf) == Some(Parsed(items, tail))
  }

  ghost predicate ReadsMembers(s: Bytes, lf: LoadFlags, seen: Members, all: Members, tail: Bytes) {
    var l := Lex(s);
    l.token != Eof && l.token != Punct(RBRACE) && ParseMembers(l.token, l.rest, seen, lf) == Some(Parsed(all, tail))
  }

  lemma ReadsBlank(ws: Bytes, s: Bytes, lf: LoadFlags)
    requires forall i :: 0 <= i < |ws| ==> IsSpace(ws[i])
    ensures forall v, tail :: Reads(s, lf, v, tail) ==> Reads(ws + s, lf, v, tail)
    ensures forall v, tail :: ReadsItems(s, lf, v, tail) ==> ReadsItems(ws + s, lf, v, tail)
    ensures forall v, w, tail :: ReadsMembers(s, lf, v, w, tail) ==> ReadsMembers(ws + s, lf, v, w, tail)
  {
    LexBlank(ws, s);
    hide Lex, ParseValue, ParseItems, ParseMembers;
  }

  /** What follows the last element or member. */
  lemma ClosingDelimited(f: Flags, depth: nat, c: nat, tail: Bytes)
    requires c == RBRACKET || c == RBRACE
    ensures Delimited(Indent(f, depth, false) + ([c] + tail))
    ensures Lex(Indent(f, depth, false) + ([c] + tail)) == Lexed(Punct(c), tail)
  {
    IndentBlank(f, depth, false);
    LexBlank(Indent(f, depth, false), [c] + tail);
    LexPunct(c, tail);
    hide Lex;
  }

  function AppendMembers(a: Members, b: Members): Members {
    match a
    case End => b
    case Bind(k, v, rest) => Bind(k, v, AppendMembers(rest, b))
  }

  lemma {:induction false} SetNew(m: Members, k: Bytes, v: Json)
    requires !HasMember(m, k)
    ensures SetMember(m, k, v) == AppendMembers(m, Bind(k, v, End))
  {
    if m.Bind? {
      SetNew(m.rest, k, v);
    }
  }

  lemma {:induction false} AppendAssoc(a: Members, b: Members, c: Members)
    ensures AppendMembers(AppendMembers(a, b), c) == AppendMembers(a, AppendMembers(b, c))
  {
    if a.Bind? {
      AppendAssoc(a.rest, b, c);
    }
  }

  lemma {:induction false} HasAppend(a: Members, b: Members, k: Bytes)
    ensures HasMember(AppendMembers(a, b), k) <==> HasMember(a, k) || HasMember(b, k)
  {
    if a.Bind? {
      HasAppend(a.rest, b, k);
    }
  }

  lemma {:induction false} AppendEnd(a: Members)
    ensures AppendMembers(a, End) == a
  {
    if a.Bind? {
      AppendEnd(a.rest);
    }
  }

  /** No key of `m` has been seen. */
  ghost predicate NewKeys(seen: Members, m: Members) {
    match m
    case End => true
    case Bind(k, _, rest) => !HasMember(seen, k) && NewKeys(seen, rest)
  }

  lemma {:induction false} NewKeysAfter(seen: Members, k: Bytes, v: Json, m: Members)
    requires NewKeys(seen, m) && !HasMember(m, k)
    ensures NewKeys(AppendMembers(seen, Bind(k, v, End)), m)
  {
    if m.Bind? {
      NewKeysAfter(seen, k, v, m.rest);
      HasAppend(seen, Bind(k, v, End), m.key);
    }
  }

  // ---------------------------------------------------------------- the round trip

  lemma Scalars(v: Json, f: Flags, depth: nat, tail: Bytes, lf: LoadFlags)
    requires Good(v) && Delimited(tail) && lf.nul && !v.Arr? && !v.Obj?
    ensures Reads(Text(v, f, depth) + tail, lf, v, tail)
  {
    hide Lex, Body, Digits;
    match v
    case Null => LexWord([110, 117, 108, 108], tail);
    case True => LexWord([116, 114, 117, 101], tail);
    case False => LexWord([102, 97, 108, 115, 101], tail);
    case Int(i) => LexNumber(i, tail);
    case Str(s) => LexQuoted(s, f, tail);
  }

  lemma Brackets(s: Bytes, lf: LoadFlags)
    ensures ParseValue(Punct(LBRACKET), s, lf) == ParseArray(s, lf)
    ensures ParseValue(Punct(LBRACE), s, lf) == ParseObject(s, lf)
  {
    hide ParseArray, ParseObject;
  }

  lemma ArrayOf(s: Bytes, lf: LoadFlags, items: Items, tail: Bytes)
    requires ReadsItems(s, lf, items, tail)
    ensures ParseArray(s, lf) == Some(Parsed(Arr(items), tail))
  {
    hide Lex, ParseItems;
  }

  lemma ObjectOf(s: Bytes, lf: LoadFlags, members: Members, tail: Bytes)
    requires ReadsMembers(s, lf, End, members, tail)
    ensures ParseObject(s, lf) == Some(Parsed(Obj(members), tail))
  {
    hide Lex, ParseMembers;
  }

  /** Opening bracket, then what is inside. */
  lemma OpenArray(f: Flags, depth: nat, inside: Bytes, lf: LoadFlags, items: Items, tail: Bytes)
    requires ReadsItems(inside, lf, items, tail)
    ensures Reads([LBRACKET] + Indent(f, depth, false) + inside, lf, Arr(items), tail)
  {
    hide Lex, ParseItems, ParseArray, ParseValue, ReadsItems, Indent;
    var ws := Indent(f, depth, false);
    IndentBlank(f, depth, false);
    ReadsBlank(ws, inside, lf);
    assert [LBRACKET] + ws + inside == [LBRACKET] + (ws + inside);
    LexPunct(LBRACKET, ws + inside);
    Brackets(ws + inside, lf);
    ArrayOf(ws + inside, lf, items, tail);
  }

  lemma OpenObject(f: Flags, depth: nat, inside: Bytes, lf: LoadFlags, members: Members, tail: Bytes)
    requires ReadsMembers(inside, lf, End, members, tail)
    ensures Reads([LBRACE] + Indent(f, depth, false) + inside, lf, Obj(members), tail)
  {
    hide Lex, ParseMembers, ParseObject, ParseValue, ReadsMembers, Indent;
    var ws := Indent(f, depth, false);
    IndentBlank(f, depth, false);
    ReadsBlank(ws, inside, lf);
    assert [LBRACE] + ws + inside == [LBRACE] + (ws + inside);
    LexPunct(LBRACE, ws + inside);
    Brackets(ws + inside, lf);
    ObjectOf(ws + inside, lf, members, tail);
  }

  lemma EmptyOnes(tail: Bytes, lf: LoadFlags)
    ensures Reads([LBRACKET, RBRACKET] + tail, lf, Arr(Nil), tail) && Reads([LBRACE, RBRACE] + tail, lf, Obj(End), tail)
  {
    var a, o := [RBRACKET] + tail, [RBRACE] + tail;
    LexPunct(RBRACKET, tail);
    LexPunct(RBRACE, tail);
    assert ParseArray(a, lf) == Some(Parsed(Arr(Nil), tail)) && ParseObject(o, lf) == Some(Parsed(Obj(End), tail));
    hide Lex, ParseArray, ParseObject, ParseValue;
    assert [LBRACKET, RBRACKET] + tail == [LBRACKET] + a;
    assert [LBRACE, RBRACE] + tail == [LBRACE] + o;
    LexPunct(LBRACKET, a);
    LexPunct(LBRACE, o);
    Brackets(a, lf);
    Brackets(o, lf);
  }

  /** A value that can be read does not look like a closing bracket. */
  lemma ReadsNotClosing(s: Bytes, lf: LoadFlags, v: Json, tail: Bytes)
    requires Reads(s, lf, v, tail)
    ensures Lex(s).token != Punct(RBRACKET) && Lex(s).token != Punct(RBRACE)
  {
    hide Lex, ParseArray, ParseObject;
  }

  lemma LastItem(s: Bytes, lf: LoadFlags, v: Json, after: Bytes, tail: Bytes)
    requires Reads(s, lf, v, after) && Lex(after) == Lexed(Punct(RBRACKET), tail)
    ensures ReadsItems(s, lf, Cons(v, Nil), tail)
  {
    ReadsNotClosing(s, lf, v, after);
    hide Lex, ParseValue;
  }

  lemma MoreItems(s: Bytes, lf: LoadFlags, v: Json, f: Flags, depth: nat, more: Bytes, items: Items, tail: Bytes)
    requires Reads(s, lf, v, [COMMA] + Indent(f, depth, true) + more) && ReadsItems(more, lf, items, tail)
    ensures ReadsItems(s, lf, Cons(v, items), tail)
  {
    hide Lex, ParseValue, ParseItems, Indent;
    var ws := Indent(f, depth, true);
    IndentBlank(f, depth, true);
    ReadsBlank(ws, more, lf);
    assert [COMMA] + ws + more == [COMMA] + (ws + more);
    LexPunct(COMMA, ws + more);
    ReadsNotClosing(s, lf, v, [COMMA] + (ws + more));
    ItemThen(Lex(s), lf, v, ws + more, items, tail);
  }

  lemma ItemThen(l: Lexed, lf: LoadFlags, v: Json, after: Bytes, items: Items, tail: Bytes)
    requires ParseValue(l.token, l.rest, lf) == Some(Parsed(v, [COMMA] + after))
    requires Lex([COMMA] + after) == Lexed(Punct(COMMA), after)
    requires ReadsItems(after, lf, items, tail)
    ensures ParseItems(l.token, l.rest, lf) == Some(Parsed(Cons(v, items), tail))
  {
    hide Lex, ParseValue;
  }

  // members

  /** One member, up to what follows its value. */
  lemma OneMember(k: Bytes, f: Flags, rest: Bytes, lf: LoadFlags, seen: Members, v: Json, after: Bytes)
    requires GoodKey(k) && !HasMember(seen, k) && Reads(rest, lf, v, after)
    ensures var s := Quoted(k, f) + (Separator(f) + rest);
      && Lex(s).token == Text_(k)
      && ParseMember(Lex(s).token, Lex(s).rest, seen, lf) == Some(Parsed(AppendMembers(seen, Bind(k, v, End)), after))
  {
    hide Lex, ParseValue, Quoted, Valid;
    LexQuoted(k, f, Separator(f) + rest);
    var blank: Bytes := if f.compact then [] else [SPACE];
    assert Separator(f) + rest == [COLON] + (blank + rest);
    LexPunct(COLON, blank + rest);
    ReadsBlank(blank, rest, lf);
    SetNew(seen, k, v);
    MemberThen(k, Separator(f) + rest, blank + rest, lf, seen, v, after);
  }

  lemma MemberThen(k: Bytes, s: Bytes, rest: Bytes, lf: LoadFlags, seen: Members, v: Json, after: Bytes)
    requires 0 !in k && !HasMember(seen, k) && Lex(s) == Lexed(Punct(COLON), rest) && Reads(rest, lf, v, after)
    ensures ParseMember(Text_(k), s, seen, lf) == Some(Parsed(SetMember(seen, k, v), after))
  {
    hide Lex, ParseValue, SetMember, HasMember;
  }

  lemma LastMember(s: Bytes, lf: LoadFlags, seen: Members, k: Bytes, all: Members, after: Bytes, tail: Bytes)
    requires Lex(s).token == Text_(k) && ParseMember(Lex(s).token, Lex(s).rest, seen, lf) == Some(Parsed(all, after))
    requires Lex(after) == Lexed(Punct(RBRACE), tail)
    ensures ReadsMembers(s, lf, seen, all, tail)
  {
    hide Lex, ParseMember;
  }

  lemma MoreMembers(s: Bytes, lf: LoadFlags, seen: Members, k: Bytes, now: Members, f: Flags, depth: nat, more: Bytes,
                    all: Members, tail: Bytes)
    requires Lex(s).token == Text_(k)
    requires ParseMember(Lex(s).token, Lex(s).rest, seen,
      lf) == Some(Parsed(now, [COMMA] + Indent(f, depth, true) + more))
    requires ReadsMembers(more, lf, now, all, tail)
    ensures ReadsMembers(s, lf, seen, all, tail)
  {
    hide Lex, ParseMember, ParseMembers, Indent;
    var ws := Indent(f, depth, true);
    IndentBlank(f, depth, true);
    ReadsBlank(ws, more, lf);
    assert [COMMA] + ws + more == [COMMA] + (ws + more);
    LexPunct(COMMA, ws + more);
    MembersThen(Lex(s), lf, seen, now, ws + more, all, tail);
  }

  lemma MembersThen(l: Lexed, lf: LoadFlags, seen: Members, now: Members, after: Bytes, all: Members, tail: Bytes)
    requires ParseMember(l.token, l.rest, seen, lf) == Some(Parsed(now, [COMMA] + after))
    requires Lex([COMMA] + after) == Lexed(Punct(COMMA), after)
    requires ReadsMembers(after, lf, now, all, tail)
    ensures ParseMembers(l.token, l.rest, seen, lf) == Some(Parsed(all, tail))
  {
    hide Lex, ParseMember;
  }

  // everything

  /** Parsing the text of a value, with anything behind it that can follow a value, gives the
      value and stops right behind it. */
  lemma {:induction false} ValueBack(v: Json, f: Flags, depth: nat, tail: Bytes, lf: LoadFlags)
    requires Good(v) && Delimited(tail) && lf.nul
    ensures Reads(Text(v, f, depth) + tail, lf, v, tail)
    decreases v, 0
  {
    hide Reads, ReadsItems, ReadsMembers, Indent, ItemsText, MembersText;
    EmptyOnes(tail, lf);
    match v {
      case Arr(items) =>
        if items.Cons? {
          ItemsBack(items, f, depth, tail, lf);
          var inside := ItemsText(items, f, depth + 1) + (Indent(f, depth, false) + ([RBRACKET] + tail));
          OpenArray(f, depth + 1, inside, lf, items, tail);
          Regroup5([LBRACKET], Indent(f, depth + 1, false), ItemsText(items, f, depth + 1), Indent(f, depth, false),
            [RBRACKET], tail);
        }
      case Obj(members) =>
        if members.Bind? {
          NoneSeen(members);
          MembersBack(members, f, depth, End, tail, lf);
          var inside := MembersText(members, f, depth + 1) + (Indent(f, depth, false) + ([RBRACE] + tail));
          OpenObject(f, depth + 1, inside, lf, members, tail);
          Regroup5([LBRACE], Indent(f, depth + 1, false), MembersText(members, f, depth + 1), Indent(f, depth, false),
            [RBRACE], tail);
        }
      case _ => Scalars(v, f, depth, tail, lf);
    }
  }

  lemma Regroup5(a: Bytes, b: Bytes, c: Bytes, d: Bytes, e: Bytes, tail: Bytes)
    ensures a + b + (c + (d + e)) + tail == a + b + (c + (d + (e + tail)))
  {
  }

  lemma {:induction false} NoneSeen(m: Members)
    ensures NewKeys(End, m)
  {
    if m.Bind? {
      NoneSeen(m.rest);
    }
  }

  lemma {:induction false} ItemsBack(items: Items, f: Flags, depth: nat, tail: Bytes, lf: LoadFlags)
    requires GoodItems(items) && items.Cons? && lf.nul
    ensures ReadsItems(ItemsText(items, f, depth + 1) + (Indent(f, depth, false) + ([RBRACKET] + tail)), lf, items,
      tail)
    decreases items, 0
  {
    hide Reads, ReadsItems, ReadsMembers, Indent, Text, Delimited, Lex;
    var close := Indent(f, depth, false) + ([RBRACKET] + tail);
    ClosingDelimited(f, depth, RBRACKET, tail);
    var h := Text(items.head, f, depth + 1);
    if items.tail.Nil? {
      ValueBack(items.head, f, depth + 1, close, lf);
      LastItem(h + close, lf, items.head, close, tail);
    } else {
      ItemsBack(items.tail, f, depth, tail, lf);
      var more := ItemsText(items.tail, f, depth + 1) + close;
      var after := [COMMA] + Indent(f, depth + 1, true) + more;
      CommaDelimited(Indent(f, depth + 1, true) + more);
      assert after == [COMMA] + (Indent(f, depth + 1, true) + more);
      ValueBack(items.head, f, depth + 1, after, lf);
      MoreItems(h + after, lf, items.head, f, depth + 1, more, items.tail, tail);
      Regroup4(h, [COMMA], Indent(f, depth + 1, true), ItemsText(items.tail, f, depth + 1), close);
    }
  }

  lemma CommaDelimited(s: Bytes)
    ensures Delimited([COMMA] + s)
  {
  }

  lemma Regroup4(h: Bytes, c: Bytes, w: Bytes, t: Bytes, close: Bytes)
    ensures h + (c + w + t) + close == h + (c + w + (t + close))
  {
  }

  lemma {:induction false} MembersBack(m: Members, f: Flags, depth: nat, seen: Members, tail: Bytes, lf: LoadFlags)
    requires GoodMembers(m) && m.Bind? && NewKeys(seen, m) && lf.nul
    ensures ReadsMembers(MembersText(m, f, depth + 1) + (Indent(f, depth, false) + ([RBRACE] + tail)), lf, seen,
      AppendMembers(seen, m), tail)
    decreases m, 0
  {
    hide Reads, ReadsItems, ReadsMembers, Indent, Text, Delimited, Lex, Quoted, ParseMember;
    var close := Indent(f, depth, false) + ([RBRACE] + tail);
    ClosingDelimited(f, depth, RBRACE, tail);
    var q, t := Quoted(m.key, f), Text(m.value, f, depth + 1);
    var now := AppendMembers(seen, Bind(m.key, m.value, End));
    if m.rest.End? {
      ValueBack(m.value, f, depth + 1, close, lf);
      OneMember(m.key, f, t + close, lf, seen, m.value, close);
      LastMember(q + (Separator(f) + (t + close)), lf, seen, m.key, now, close, tail);
      Regroup3(q, Separator(f), t, close);
    } else {
      NewKeysAfter(seen, m.key, m.value, m.rest);
      MembersBack(m.rest, f, depth, now, tail, lf);
      AppendAssoc(seen, Bind(m.key, m.value, End), m.rest);
      var rest := MembersText(m.rest, f, depth + 1);
      var more := rest + close;
      var after := [COMMA] + Indent(f, depth + 1, true) + more;
      CommaDelimited(Indent(f, depth + 1, true) + more);
      assert after == [COMMA] + (Indent(f, depth + 1, true) + more);
      ValueBack(m.value, f, depth + 1, after, lf);
      OneMember(m.key, f, t + after, lf, seen, m.value, after);
      MoreMembers(q + (Separator(f) + (t + after)), lf, seen, m.key, now, f, depth + 1, more, AppendMembers(seen, m),
        tail);
      Regroup3(q, Separator(f), t, after);
      Regroup4(MemberText(m.key, m.value, f, depth + 1), [COMMA], Indent(f, depth + 1, true), rest, close);
    }
  }

  lemma Regroup3(q: Bytes, c: Bytes, t: Bytes, after: Bytes)
    ensures q + (c + t) + after == q + (c + (t + after))
  {
  }

  // ---------------------------------------------------------------- the text is UTF-8

  predicate Ascii(s: Bytes) {
    forall i :: 0 <= i < |s| ==> s[i] < 0x80
  }

  lemma PieceValid(c: nat, f: Flags)
    requires Scalar(c)
    ensures Valid(Piece(c, f))
  {
    if MustEscape(c, f) {
      EscapeAscii(c);
      AsciiValid(EscapeText(c));
    } else {
      EncodeValid(c);
    }
  }

  lemma EscapeAscii(c: nat)
    ensures Ascii(EscapeText(c))
  {
    if c < 0x10000 {
      UAscii(c);
    } else {
      UAscii(0xD800 + (c - 0x10000) / 1024);
      UAscii(0xDC00 + (c - 0x10000) % 1024);
    }
    hide UEscape;
  }

  lemma UAscii(v: nat)
    ensures Ascii(UEscape(v))
  {
  }

  lemma {:induction false} BodyValid(s: Bytes, f: Flags)
    requires Valid(s)
    ensures Valid(Body(s, f))
    decreases |s|
  {
    hide Iterate, Piece;
    if |s| != 0 {
      var r := Iterate(s).value;
      PieceValid(r.codepoint, f);
      BodyValid(s[r.count..], f);
      ValidAppend(Piece(r.codepoint, f), Body(s[r.count..], f));
    }
  }

  lemma QuotedValid(s: Bytes, f: Flags)
    requires Valid(s)
    ensures Valid(Quoted(s, f))
  {
    hide Valid, Body;
    AsciiValid([QUOTE]);
    BodyValid(s, f);
    ValidAppend([QUOTE], Body(s, f));
    ValidAppend([QUOTE] + Body(s, f), [QUOTE]);
  }

  lemma DecimalAscii(i: int)
    ensures Ascii(Decimal(i))
  {
    DigitsAreDigits(if i < 0 then -i else i);
    hide Digits;
  }

  lemma Joined3Valid(a: Bytes, b: Bytes, c: Bytes)
    requires Valid(a) && Valid(b) && Valid(c)
    ensures Valid(a + (b + c)) && Valid(a + b + c)
  {
    hide Valid;
    ValidAppend(b, c);
    ValidAppend(a, b + c);
    ValidAppend(a, b);
    ValidAppend(a + b, c);
  }

  lemma IndentValid(f: Flags, depth: nat, space: bool)
    ensures Valid(Indent(f, depth, space))
  {
    AsciiValid(Indent(f, depth, space));
  }

  /** Opening, inside and closing of an array or object. */
  lemma WrappedValid(open: nat, f: Flags, depth: nat, inside: Bytes, close: nat)
    requires Valid(inside) && open < 0x80 && close < 0x80
    ensures Valid([open] + Indent(f, depth + 1, false) + (inside + (Indent(f, depth, false) + [close])))
  {
    hide Valid, Indent;
    AsciiValid([open]);
    AsciiValid([close]);
    IndentValid(f, depth + 1, false);
    IndentValid(f, depth, false);
    Joined3Valid(inside, Indent(f, depth, false), [close]);
    Joined3Valid([open], Indent(f, depth + 1, false), inside + (Indent(f, depth, false) + [close]));
  }

  lemma ListValid(a: Bytes, f: Flags, depth: nat, more: Bytes)
    requires Valid(a) && Valid(more)
    ensures Valid(a + ([COMMA] + Indent(f, depth, true) + more))
  {
    hide Valid, Indent;
    AsciiValid([COMMA]);
    IndentValid(f, depth, true);
    Joined3Valid([COMMA], Indent(f, depth, true), more);
    ValidAppend(a, [COMMA] + Indent(f, depth, true) + more);
  }

  lemma {:induction false} TextValid(v: Json, f: Flags, depth: nat)
    requires Good(v)
    ensures Valid(Text(v, f, depth))
    decreases v, 0
  {
    hide Valid, Indent, ItemsText, MembersText, Quoted;
    match v {
      case Int(i) =>
        DecimalAscii(i);
        AsciiValid(Decimal(i));
      case Str(s) => QuotedValid(s, f);
      case Arr(items) =>
        if items.Nil? {
          AsciiValid([LBRACKET, RBRACKET]);
        } else {
          ItemsValid(items, f, depth + 1);
          WrappedValid(LBRACKET, f, depth, ItemsText(items, f, depth + 1), RBRACKET);
        }
      case Obj(members) =>
        if members.End? {
          AsciiValid([LBRACE, RBRACE]);
        } else {
          MembersValid(members, f, depth + 1);
          WrappedValid(LBRACE, f, depth, MembersText(members, f, depth + 1), RBRACE);
        }
      case _ => AsciiValid(Text(v, f, depth));
    }
  }

  lemma {:induction false} ItemsValid(items: Items, f: Flags, depth: nat)
    requires GoodItems(items) && items.Cons?
    ensures Valid(ItemsText(items, f, depth))
    decreases items, 0
  {
    hide Valid, Indent, Text;
    TextValid(items.head, f, depth);
    if items.tail.Cons? {
      ItemsValid(items.tail, f, depth);
      ListValid(Text(items.head, f, depth), f, depth, ItemsText(items.tail, f, depth));
    }
  }

  lemma {:induction false} MembersValid(m: Members, f: Flags, depth: nat)
    requires GoodMembers(m) && m.Bind?
    ensures Valid(MembersText(m, f, depth))
    decreases m, 0
  {
    hide Valid, Indent, Text, Quoted;
    TextValid(m.value, f, depth);
    QuotedValid(m.key, f);
    AsciiValid(Separator(f));
    Joined3Valid(Quoted(m.key, f), Separator(f), Text(m.value, f, depth));
    if m.rest.Bind? {
      MembersValid(m.rest, f, depth);
      ListValid(MemberText(m.key, m.value, f, depth), f, depth, MembersText(m.rest, f, depth));
    }
  }

  // ---------------------------------------------------------------- main result

  /** Every value without reals, dumped with any indentation, compactness, escaping of
      non-ASCII text and of slashes, loads as itself. */
  lemma RoundTrip(v: Json, f: Flags, lf: LoadFlags)
    requires Good(v) && lf.nul && (lf.any || v.Arr? || v.Obj?)
    ensures Load(Text(v, f, 0), lf) == Some(v)
  {
    var s := Text(v, f, 0);
    TextValid(v, f, 0);
    ValueBack(v, f, 0, [], lf);
    assert s + [] == s;
    assert Lex([]).token == Eof;
    if v.Arr? || v.Obj? {
      FirstToken(v, f);
    }
    hide Lex, ParseValue, Valid, Text;
  }

  lemma FirstToken(v: Json, f: Flags)
    requires Good(v) && (v.Arr? || v.Obj?)
    ensures Lex(Text(v, f, 0)).token == Punct(if v.Arr? then LBRACKET else LBRACE)
  {
    var c := if v.Arr? then LBRACKET else LBRACE;
    var s := Text(v, f, 0);
    hide Indent, ItemsText, MembersText;
    assert s == [c] + s[1..];
    LexPunct(c, s[1..]);
  }
}

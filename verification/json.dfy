/** JSON values without reals: `do_dump` of lib/libjansson/dump.c, and the lexer and
    recursive-descent parser of lib/libjansson/load.c. */
module Json {
  import opened Common
  import opened Utf8
  import opened JsonString

  datatype Json = Null | True | False | Int(i: int) | Str(s: Bytes) | Arr(items: Items) | Obj(members: Members)
  datatype Items = Nil | Cons(head: Json, tail: Items)
  /** Members in the order of iteration. */
  datatype Members = End | Bind(key: Bytes, value: Json, rest: Members)

  const COMMA: nat := 44
  const COLON: nat := 58
  const LBRACKET: nat := 91
  const RBRACKET: nat := 93
  const LBRACE: nat := 123
  const RBRACE: nat := 125
  const SPACE: nat := 32
  const NEWLINE: nat := 10
  const MINUS: nat := 45

  const MIN_INT: int := -0x8000_0000_0000_0000
  const MAX_INT: int := 0x7fff_ffff_ffff_ffff

  // ---------------------------------------------------------------- values

  function HasMember(m: Members, k: Bytes): bool {
    match m
    case End => false
    case Bind(key, _, rest) => key == k || HasMember(rest, k)
  }

  /** What the library lets a program build: 64-bit integers, UTF-8 strings, and keys that are
      distinct and have no NUL. */
  ghost predicate Good(v: Json) {
    match v
    case Int(i) => MIN_INT <= i <= MAX_INT
    case Str(s) => IsBytes(s) && Valid(s)
    case Arr(items) => GoodItems(items)
    case Obj(members) => GoodMembers(members)
    case _ => true
  }

  ghost predicate GoodItems(items: Items) {
    match items
    case Nil => true
    case Cons(h, t) => Good(h) && GoodItems(t)
  }

  ghost predicate GoodKey(k: Bytes) {
    IsBytes(k) && Valid(k) && 0 !in k
  }

  ghost predicate GoodMembers(m: Members) {
    match m
    case End => true
    case Bind(k, v, rest) => GoodKey(k) && Good(v) && GoodMembers(rest) && !HasMember(rest, k)
  }

  // ---------------------------------------------------------------- dumping

  /** Decimal digits of a natural number. */
  function Digits(n: nat): (r: Bytes)
    ensures 1 <= |r|
  {
    if n < 10 then [48 + n] else Digits(n / 10) + [48 + n % 10]
  }

  function Decimal(i: int): Bytes {
    if i < 0 then [MINUS] + Digits(-i) else Digits(i)
  }

  function Spaces(n: nat): (r: Bytes)
    ensures |r| == n && forall i :: 0 <= i < n ==> r[i] == SPACE
  {
    seq(n, _ => SPACE)
  }

  /** `dump_indent`. */
  function Indent(f: Flags, depth: nat, space: bool): Bytes {
    if f.indent > 0 then [NEWLINE] + Spaces(f.indent * depth)
    else if space && !f.compact then [SPACE]
    else []
  }

  function Separator(f: Flags): Bytes {
    if f.compact then [COLON] else [COLON, SPACE]
  }

  function Quoted(s: Bytes, f: Flags): Bytes
    requires Valid(s)
  {
    [QUOTE] + Body(s, f) + [QUOTE]
  }

  /** `do_dump`. */
  ghost function Text(v: Json, f: Flags, depth: nat): Bytes
    requires Good(v)
    decreases v, 0
  {
    match v
    case Null => [110, 117, 108, 108]
    case True => [116, 114, 117, 101]
    case False => [102, 97, 108, 115, 101]
    case Int(i) => Decimal(i)
    case Str(s) => Quoted(s, f)
    case Arr(items) =>
      if items.Nil? then [LBRACKET, RBRACKET]
      else
        [LBRACKET] + Indent(f, depth + 1, false)
        + (ItemsText(items, f, depth + 1) + (Indent(f, depth, false) + [RBRACKET]))
    case Obj(members) =>
      if members.End? then [LBRACE, RBRACE]
      else
        [LBRACE] + Indent(f, depth + 1, false)
        + (MembersText(members, f, depth + 1) + (Indent(f, depth, false) + [RBRACE]))
  }

  ghost function ItemsText(items: Items, f: Flags, depth: nat): Bytes
    requires GoodItems(items) && items.Cons?
    decreases items, 0
  {
    if items.tail.Nil? then Text(items.head, f, depth)
    else Text(items.head, f, depth) + ([COMMA] + Indent(f, depth, true) + ItemsText(items.tail, f, depth))
  }

  ghost function MemberText(k: Bytes, v: Json, f: Flags, depth: nat): Bytes
    requires GoodKey(k) && Good(v)
    decreases v, 1
  {
    Quoted(k, f) + (Separator(f) + Text(v, f, depth))
  }

  ghost function MembersText(m: Members, f: Flags, depth: nat): Bytes
    requires GoodMembers(m) && m.Bind?
    decreases m, 0
  {
    if m.rest.End? then MemberText(m.key, m.value, f, depth)
    else MemberText(m.key, m.value, f, depth) + ([COMMA] + Indent(f, depth, true) + MembersText(m.rest, f, depth))
  }

  // ---------------------------------------------------------------- the lexer

  datatype Token =
    | Eof | Punct(c: nat) | Text_(s: Bytes) | Number(i: int) | Real
    | TrueToken | FalseToken | NullToken | Invalid

  datatype Lexed = Lexed(token: Token, rest: Bytes)

  predicate IsSpace(c: nat) {
    c == 32 || c == 9 || c == 10 || c == 13
  }

  predicate IsDigit(c: nat) {
    48 <= c <= 57
  }

  predicate IsAlpha(c: nat) {
    65 <= c <= 90 || 97 <= c <= 122
  }

  predicate IsPunct(c: nat) {
    c == LBRACE || c == RBRACE || c == LBRACKET || c == RBRACKET || c == COLON || c == COMMA
  }

  /** Length of the run of digits at the front. */
  function DigitRun(s: Bytes): (n: nat)
    ensures n <= |s| && forall i :: 0 <= i < n ==> IsDigit(s[i])
    ensures n < |s| ==> !IsDigit(s[n])
  {
    if |s| == 0 || !IsDigit(s[0]) then 0 else 1 + DigitRun(s[1..])
  }

  function AlphaRun(s: Bytes): (n: nat)
    ensures n <= |s| && forall i :: 0 <= i < n ==> IsAlpha(s[i])
    ensures n < |s| ==> !IsAlpha(s[n])
  {
    if |s| == 0 || !IsAlpha(s[0]) then 0 else 1 + AlphaRun(s[1..])
  }

  /** The number that a run of digits stands for. */
  function NatOf(s: Bytes): nat
    requires forall i :: 0 <= i < |s| ==> IsDigit(s[i])
  {
    if |s| == 0 then 0
    else
      assert IsDigit(s[|s| - 1]);
      NatOf(s[..|s| - 1]) * 10 + (s[|s| - 1] - 48)
  }

  /** `lex_scan_number`, sign already looked at: integers only; where a fraction or an exponent
      follows, the number is a real. */
  function LexDigits(s: Bytes, negative: bool): (r: Lexed)
    ensures |r.rest| <= |s|
  {
    var n := DigitRun(s);
    if n == 0 then Lexed(Invalid, s)
    else if s[0] == 48 && n > 1 then Lexed(Invalid, s[1..])
    else if n < |s| && (s[n] == 46 || s[n] == 69 || s[n] == 101) then Lexed(Real, s[n..])
    else
      var v := NatOf(s[..n]);
      var i: int := if negative then 0 - v else v;
      if MIN_INT <= i <= MAX_INT then Lexed(Number(i), s[n..]) else Lexed(Invalid, s[n..])
  }

  function LexString(s: Bytes): (r: Lexed)
    ensures |r.rest| <= |s|
  {
    match Scan(s)
    case None => Lexed(Invalid, [])
    case Some(n) =>
      if n < |s| then
        (match Decode(s[..n])
         case None => Lexed(Invalid, s[n + 1..])
         case Some(v) => Lexed(Text_(v), s[n + 1..]))
      else Lexed(Invalid, [])
  }

  function Keyword(s: Bytes): Token {
    if s == [116, 114, 117, 101] then TrueToken
    else if s == [102, 97, 108, 115, 101] then FalseToken
    else if s == [110, 117, 108, 108] then NullToken
    else Invalid
  }

  /** `lex_scan`: the next token. */
  function Lex(s: Bytes): (r: Lexed)
    ensures |r.rest| <= |s| && (r.token != Eof ==> |r.rest| < |s|)
    decreases |s|
  {
    if |s| == 0 then Lexed(Eof, [])
    else if IsSpace(s[0]) then Lex(s[1..])
    else if IsPunct(s[0]) then Lexed(Punct(s[0]), s[1..])
    else if s[0] == QUOTE then LexString(s[1..])
    else if s[0] == MINUS then LexDigits(s[1..], true)
    else if IsDigit(s[0]) then LexDigitsHere(s)
    else if IsAlpha(s[0]) then
      var n := AlphaRun(s);
      Lexed(Keyword(s[..n]), s[n..])
    else Lexed(Invalid, s[1..])
  }

  function LexDigitsHere(s: Bytes): (r: Lexed)
    requires |s| != 0 && IsDigit(s[0])
    ensures |r.rest| < |s|
  {
    LexDigits(s, false)
  }

  // ---------------------------------------------------------------- the parser

  /** JSON_DECODE_ANY, JSON_ALLOW_NUL and JSON_REJECT_DUPLICATES. */
  datatype LoadFlags = LoadFlags(any: bool, nul: bool, unique: bool)

  datatype Parsed<T> = Parsed(value: T, rest: Bytes)

  /** `json_object_set`: replace, or add at the end. */
  function SetMember(m: Members, k: Bytes, v: Json): Members {
    match m
    case End => Bind(k, v, End)
    case Bind(key, value, rest) => if key == k then Bind(key, v, rest) else Bind(key, value, SetMember(rest, k, v))
  }

  function ParseValue(t: Token, s: Bytes, lf: LoadFlags): (r: Option<Parsed<Json>>)
    ensures r.Some? ==> |r.value.rest| <= |s|
    decreases |s|, 1
  {
    match t
    case Text_(x) => if !lf.nul && 0 in x then None else Some(Parsed(Str(x), s))
    case Number(i) => Some(Parsed(Int(i), s))
    case TrueToken => Some(Parsed(True, s))
    case FalseToken => Some(Parsed(False, s))
    case NullToken => Some(Parsed(Null, s))
    case Punct(c) => if c == LBRACE then ParseObject(s, lf) else if c == LBRACKET then ParseArray(s, lf) else None
    case _ => None
  }

  function ParseArray(s: Bytes, lf: LoadFlags): (r: Option<Parsed<Json>>)
    ensures r.Some? ==> |r.value.rest| <= |s|
    decreases |s|, 0
  {
    var l := Lex(s);
    if l.token == Punct(RBRACKET) then Some(Parsed(Arr(Nil), l.rest))
    else if l.token == Eof then None
    else
      match ParseItems(l.token, l.rest, lf)
      case None => None
      case Some(p) => Some(Parsed(Arr(p.value), p.rest))
  }

  function ParseItems(t: Token, s: Bytes, lf: LoadFlags): (r: Option<Parsed<Items>>)
    ensures r.Some? ==> |r.value.rest| <= |s|
    decreases |s|, 2
  {
    match ParseValue(t, s, lf)
    case None => None
    case Some(p) =>
      var l := Lex(p.rest);
      if l.token == Punct(COMMA) then
        var m := Lex(l.rest);
        if m.token == Eof then None
        else
          match ParseItems(m.token, m.rest, lf)
          case None => None
          case Some(q) => Some(Parsed(Cons(p.value, q.value), q.rest))
      else if l.token == Punct(RBRACKET) then Some(Parsed(Cons(p.value, Nil), l.rest))
      else None
  }

  function ParseObject(s: Bytes, lf: LoadFlags): (r: Option<Parsed<Json>>)
    ensures r.Some? ==> |r.value.rest| <= |s|
    decreases |s|, 0
  {
    var l := Lex(s);
    if l.token == Punct(RBRACE) then Some(Parsed(Obj(End), l.rest))
    else if l.token == Eof then None
    else
      match ParseMembers(l.token, l.rest, End, lf)
      case None => None
      case Some(p) => Some(Parsed(Obj(p.value), p.rest))
  }

  /** One member: the key is in token `t`. */
  function ParseMember(t: Token, s: Bytes, seen: Members, lf: LoadFlags): (r: Option<Parsed<Members>>)
    ensures r.Some? ==> |r.value.rest| <= |s|
    decreases |s|, 2
  {
    if !t.Text_? || 0 in t.s || (lf.unique && HasMember(seen, t.s)) then None
    else
      var l := Lex(s);
      if l.token != Punct(COLON) then None
      else
        var m := Lex(l.rest);
        match ParseValue(m.token, m.rest, lf)
        case None => None
        case Some(p) => Some(Parsed(SetMember(seen, t.s, p.value), p.rest))
  }

  function ParseMembers(t: Token, s: Bytes, seen: Members, lf: LoadFlags): (r: Option<Parsed<Members>>)
    ensures r.Some? ==> |r.value.rest| <= |s|
    decreases |s|, 3
  {
    match ParseMember(t, s, seen, lf)
    case None => None
    case Some(p) =>
      var l := Lex(p.rest);
      if l.token == Punct(COMMA) then
        var m := Lex(l.rest);
        if m.token == Eof then None else ParseMembers(m.token, m.rest, p.value, lf)
      else if l.token == Punct(RBRACE) then Some(Parsed(p.value, l.rest))
      else None
  }

  /** `json_loadb`: the text must be UTF-8 and hold one value and nothing else. */
  function Load(s: Bytes, lf: LoadFlags): Option<Json> {
    if !Valid(s) then None
    else
      var l := Lex(s);
      if !lf.any && l.token != Punct(LBRACKET) && l.token != Punct(LBRACE) then None
      else
        match ParseValue(l.token, l.rest, lf)
        case None => None
        case Some(p) => if Lex(p.rest).token == Eof then Some(p.value) else None
  }
}

/** Reading one symbol through a decoding table: the lookup loops of the CODELENS, LEN and
    DIST states of lib/libgz/inflate.c. */
module Symbols {
  import opened Bits
  import opened Canonical
  import opened BitIO
  import opened InflateTable

  /** The bits sent for symbol `s`. */
  ghost function CodeBits(lens: seq<nat>, s: nat): (b: seq<bool>)
    requires s < |lens|
    ensures |b| == lens[s]
  {
    BitsOf(Rev(CodeValue(lens, s), lens[s]), lens[s])
  }

  ghost predicate CompleteCode(lens: seq<nat>) {
    ValidLengths(lens) && Kraft(lens, MAXBITS) == Pow2(MAXBITS)
  }

  /** A code whose words fit: complete or not, but not over-subscribed. */
  ghost predicate PrefixCode(lens: seq<nat>) {
    ValidLengths(lens) && Kraft(lens, MAXBITS) <= Pow2(MAXBITS)
  }

  /** `hold` starts with the code word of `s`. */
  ghost predicate Matches(lens: seq<nat>, s: nat, hold: nat) {
    s < |lens| && lens[s] != 0 && Low(hold, lens[s]) == Rev(CodeValue(lens, s), lens[s])
  }

  lemma SortedComplete(lens: seq<nat>)
    requires CompleteCode(lens)
    ensures Complete(SortedLens(lens))
  {
    SortedLensFacts(lens);
    StartIsKraft(lens, MAXBITS);
  }

  /** A complete code matches every bit string. */
  lemma SomeMatch(lens: seq<nat>, hold: nat) returns (s: nat)
    requires CompleteCode(lens)
    ensures Matches(lens, s, hold)
  {
    var ls := SortedLens(lens);
    SortedComplete(lens);
    SortedLensFacts(lens);
    var k := Covered(ls, hold);
    s := Order(lens, MAXBITS)[k];
    RankOfOrder(lens, k);
    HuffIsCodeValue(lens, s);
  }

  /** The symbol at place `k` has rank `k`. */
  lemma RankOfOrder(lens: seq<nat>, k: nat)
    requires ValidLengths(lens) && k < |Order(lens, MAXBITS)|
    ensures var s := Order(lens, MAXBITS)[k]; s < |lens| && lens[s] != 0 && Rank(lens, s) == k
  {
    OrderFacts(lens, MAXBITS);
    var s := Order(lens, MAXBITS)[k];
    var l := lens[s];
    var b := |Order(lens, l - 1)|;
    OrderSuffix(lens, l - 1, MAXBITS);
    OrderSuffix(lens, l, MAXBITS);
    OrderFacts(lens, l - 1);
    assert b <= k;
    assert k < |Order(lens, l)|;
    assert Order(lens, MAXBITS)[k] == Order(lens, l)[k] == Filter(lens, l)[k - b];
    FilterRank(lens, l, k - b);
  }

  /** The i-th symbol of length `l` is preceded by `i` of them. */
  lemma {:induction false} FilterRank(lens: seq<nat>, l: nat, i: nat)
    requires i < |Filter(lens, l)|
    ensures var s := Filter(lens, l)[i]; s < |lens| && |Filter(lens[..s], l)| == i
  {
    var n := |lens| - 1;
    if i < |Filter(lens[..n], l)| {
      FilterRank(lens[..n], l, i);
      var s := Filter(lens, l)[i];
      assert lens[..n][..s] == lens[..s];
    }
  }

  lemma SortedFits(lens: seq<nat>)
    requires PrefixCode(lens)
    ensures Fits(SortedLens(lens))
  {
    SortedLensFacts(lens);
    StartIsKraft(lens, MAXBITS);
  }

  /** No bit string matches two symbols. */
  lemma OneMatch(lens: seq<nat>, s: nat, t: nat, hold: nat)
    requires PrefixCode(lens) && Matches(lens, s, hold) && Matches(lens, t, hold)
    ensures s == t
  {
    var ls := SortedLens(lens);
    SortedFits(lens);
    HuffIsCodeValue(lens, s);
    HuffIsCodeValue(lens, t);
    RankInOrder(lens, s);
    RankInOrder(lens, t);
    var j, k := Rank(lens, s), Rank(lens, t);
    hide Rank, Huff, SortedLens, Low, Fits;
    if j < k {
      NoClash(ls, j, k, hold);
    } else if k < j {
      NoClash(ls, k, j, hold);
    }
  }

  predicate IsLink(c: Code) {
    0 < c.op < 16
  }

  /** What the table says for accumulator `hold`, if `s` matches it. */
  lemma TableSays(t: seq<Code>, root: nat, ty: CodeType, lens: seq<nat>, s: nat, hold: nat)
    requires ValidLengths(lens) && |lens| <= SymbolLimit(ty) && Decodes(t, root, ty, lens) && Matches(lens, s, hold)
    ensures Resolves(t, root, hold, lens[s], SymbolEntry(ty, s, 0))
    ensures Low(hold, root) < |t|
    ensures IsLink(t[Low(hold, root)]) <==> root < lens[s]
    ensures SymbolEntry(ty, s, 0).bits == 0
  {
    assert !IsLink(SymbolEntry(ty, s, 0)) by { EntryNotLink(ty, s); }
  }

  lemma EntryNotLink(ty: CodeType, s: nat)
    requires s < SymbolLimit(ty)
    ensures SymbolEntry(ty, s, 0).op == 0 || 16 <= SymbolEntry(ty, s, 0).op
  {
    if ty == LENS && s > 256 {
      assert forall i :: 0 <= i < |LEXT| ==> 16 <= LEXT[i];
    } else if ty == DISTS {
      assert forall i :: 0 <= i < |DEXT| ==> 16 <= DEXT[i];
    }
  }

  /** The stream starts with a code word exactly when the accumulator matches it with enough
      bits. */
  lemma PrefixIsMatch(lens: seq<nat>, s: nat, hold: nat, bits: nat)
    requires s < |lens| && lens[s] != 0 && lens[s] <= bits
    ensures Matches(lens, s, hold) <==> BitsOf(hold, bits)[..lens[s]] == CodeBits(lens, s)
  {
    var l, c := lens[s], Rev(CodeValue(lens, s), lens[s]);
    BitsSplit(hold, l, bits - l);
    BitsLow(hold, l);
    ValueBits(hold, l);
    ValueBits(c, l);
    RevBound(CodeValue(lens, s), l);
    LowSmall(c, l);
    assert BitsOf(hold, bits)[..l] == BitsOf(hold, l);
  }

  /** The code word of `s` is a prefix of `rest`. */
  ghost predicate StartsWith(lens: seq<nat>, s: nat, rest: seq<bool>) {
    s < |lens| && lens[s] != 0 && lens[s] <= |rest| && rest[..lens[s]] == CodeBits(lens, s)
  }

  ghost predicate Ready(lens: seq<nat>, rest: seq<bool>) {
    exists s: nat :: StartsWith(lens, s, rest)
  }

  /** Length sets that `inflate_table` lets through. */
  ghost predicate Usable(ty: CodeType, lens: seq<nat>) {
    ValidLengths(lens) && |lens| <= SymbolLimit(ty) && !Refused(ty, lens)
  }

  datatype Found = Wait | Invalid | Symbol(sym: nat)

  /** What the next bits of the stream say: a symbol; or, in an incomplete code, that no
      symbol starts so; or that more bits are needed. */
  ghost function SymbolAt(ty: CodeType, lens: seq<nat>, rest: seq<bool>): Found {
    if !Usable(ty, lens) then Wait
    else if Ready(lens, rest) then
      var s: nat :| StartsWith(lens, s, rest);
      Symbol(s)
    else if !CompleteCode(lens) && |rest| >= 1 then Invalid
    else Wait
  }

  /** Bits consumed with it. */
  ghost function FoundBits(lens: seq<nat>, f: Found): nat {
    match f
    case Wait => 0
    case Invalid => 1
    case Symbol(s) => if s < |lens| then lens[s] else 0
  }

  lemma UsablePrefix(ty: CodeType, lens: seq<nat>)
    requires Usable(ty, lens)
    ensures PrefixCode(lens)
  {
  }

  /** Code words are self-delimiting. */
  lemma OneStart(lens: seq<nat>, s: nat, t: nat, rest: seq<bool>)
    requires PrefixCode(lens) && StartsWith(lens, s, rest) && StartsWith(lens, t, rest)
    ensures s == t
  {
    var n := if lens[s] < lens[t] then lens[t] else lens[s];
    var x := ValueOf(rest[..n]);
    BitsValue(rest[..n]);
    assert rest[..n][..lens[s]] == rest[..lens[s]] && rest[..n][..lens[t]] == rest[..lens[t]];
    PrefixIsMatch(lens, s, x, n);
    PrefixIsMatch(lens, t, x, n);
    OneMatch(lens, s, t, x);
  }

  /** A symbol at the front of the stream is the one found. */
  lemma FoundSymbol(ty: CodeType, lens: seq<nat>, s: nat, rest: seq<bool>)
    requires Usable(ty, lens) && StartsWith(lens, s, rest)
    ensures SymbolAt(ty, lens, rest) == Symbol(s)
  {
    UsablePrefix(ty, lens);
    hide Usable, StartsWith, PrefixCode;
    assert Ready(lens, rest);
    var t: nat :| SymbolAt(ty, lens, rest) == Symbol(t) && StartsWith(lens, t, rest);
    OneStart(lens, s, t, rest);
  }

  /** More bits behind do not change what is found. */
  lemma FoundMonotone(ty: CodeType, lens: seq<nat>, rest: seq<bool>, more: seq<bool>)
    requires SymbolAt(ty, lens, rest) != Wait
    ensures SymbolAt(ty, lens, rest + more) == SymbolAt(ty, lens, rest)
    ensures FoundBits(lens, SymbolAt(ty, lens, rest)) <= |rest|
  {
    if Ready(lens, rest) {
      var s: nat :| StartsWith(lens, s, rest);
      FoundSymbol(ty, lens, s, rest);
      assert (rest + more)[..lens[s]] == rest[..lens[s]];
      FoundSymbol(ty, lens, s, rest + more);
    } else if Ready(lens, rest + more) {
      var s: nat :| StartsWith(lens, s, rest + more);
      ShortCode(ty, lens, s);
      assert (rest + more)[..lens[s]] == rest[..lens[s]];
      assert StartsWith(lens, s, rest);
      assert false;
    }
  }

  /** In an incomplete code all words have one bit. */
  lemma ShortCode(ty: CodeType, lens: seq<nat>, s: nat)
    requires Usable(ty, lens) && !CompleteCode(lens) && s < |lens| && lens[s] != 0
    ensures lens[s] == 1 && SortedLens(lens) == [1] && Rev(CodeValue(lens, s), lens[s]) == 0
  {
    SortedFits(lens);
    var ls := SortedLens(lens);
    RankInOrder(lens, s);
    HuffIsCodeValue(lens, s);
    StartIsKraft(lens, MAXBITS);
    SortedLensFacts(lens);
    StartPositive(ls);
    assert lens[s] <= 1;
    assert ls[|ls| - 1] <= 1;
    SingleCode(ls);
    RevZero(MAXBITS);
    assert Start(ls, 0) == 0;
  }

  /** What `inflate_table` leaves for a usable length set. */
  ghost predicate Serves(t: seq<Code>, root: nat, ty: CodeType, lens: seq<nat>) {
    && Usable(ty, lens)
    && (Kraft(lens, MAXBITS) != 0 ==> Decodes(t, root, ty, lens))
    && (Kraft(lens, MAXBITS) != Pow2(MAXBITS) ==> root == 1 && 2 <= |t| && t[1] == Code(INVALID_OP, 1, 0))
    && (Kraft(lens, MAXBITS) == 0 ==> 1 <= |t| && t[0] == Code(INVALID_OP, 1, 0))
  }

  /** With accumulator `hold`, the table leads to `here` and `len` bits: the matching symbol,
      or the invalid marker. */
  ghost predicate Leads(t: seq<Code>, root: nat, ty: CodeType, lens: seq<nat>, hold: nat, f: Found)
    requires |lens| <= SymbolLimit(ty)
  {
    match f
    case Wait => false
    case Invalid => !CompleteCode(lens) && root == 1 && Low(hold, root) < |t|
      && t[Low(hold, root)] == Code(INVALID_OP, 1, 0)
                    && forall s: nat :: !Matches(lens, s, hold)
    case Symbol(s) =>
      && Matches(lens, s, hold) && Resolves(t, root, hold, lens[s], SymbolEntry(ty, s, 0))
      && Low(hold, root) < |t| && (IsLink(t[Low(hold, root)]) <==> root < lens[s]) && SymbolEntry(ty, s, 0).bits == 0
  }

  lemma LeadsSomewhere(t: seq<Code>, root: nat, ty: CodeType, lens: seq<nat>, hold: nat) returns (f: Found)
    requires Serves(t, root, ty, lens)
    ensures Leads(t, root, ty, lens, hold, f)
  {
    if CompleteCode(lens) {
      PositiveUnit();
      var s := SomeMatch(lens, hold);
      TableSays(t, root, ty, lens, s, hold);
      f := Symbol(s);
    } else if s: nat :| Matches(lens, s, hold) {
      KraftPositive(lens, s);
      TableSays(t, root, ty, lens, s, hold);
      f := Symbol(s);
    } else {
      f := Invalid;
      LowBit(hold);
      if Low(hold, 1) == 0 {
        NothingCoded(ty, lens, hold);
      }
    }
  }

  lemma PositiveUnit()
    ensures 0 < Pow2(MAXBITS)
  {
    Pow2Mono(MAXBITS, 0);
  }

  lemma LowBit(x: nat)
    ensures Low(x, 1) == x % 2
  {
    assert Low(x / 2, 0) == 0;
  }

  lemma KraftPositive(lens: seq<nat>, s: nat)
    requires ValidLengths(lens) && s < |lens| && lens[s] != 0
    ensures Kraft(lens, MAXBITS) != 0
  {
    RankInOrder(lens, s);
    SortedLensFacts(lens);
    StartIsKraft(lens, MAXBITS);
    StartPositive(SortedLens(lens));
  }

  /** Where an incomplete code does not match a zero bit, it has no words at all. */
  lemma NothingCoded(ty: CodeType, lens: seq<nat>, hold: nat)
    requires Usable(ty, lens) && !CompleteCode(lens) && Low(hold, 1) == 0 && forall s: nat :: !Matches(lens, s, hold)
    ensures Kraft(lens, MAXBITS) == 0
  {
    if Kraft(lens, MAXBITS) != 0 {
      StartIsKraft(lens, MAXBITS);
      SortedLensFacts(lens);
      var ls := SortedLens(lens);
      assert 0 < |ls| by {
        if |ls| == 0 { NoSymbols(ls); }
      }
      var s := Order(lens, MAXBITS)[0];
      ShortCode(ty, lens, s);
      assert Matches(lens, s, hold);
    }
  }

  /** Enough bits: the symbol, or its absence, is what the stream says. */
  lemma LeadsFound(t: seq<Code>, root: nat, ty: CodeType, lens: seq<nat>, hold: nat, bits: nat, f: Found,
                   tail: seq<bool>)
    requires Usable(ty, lens) && Leads(t, root, ty, lens, hold, f) && FoundBits(lens, f) <= bits
    ensures SymbolAt(ty, lens, BitsOf(hold, bits) + tail) == f
  {
    UsablePrefix(ty, lens);
    var rest := BitsOf(hold, bits) + tail;
    match f
    case Symbol(s) =>
      PrefixIsMatch(lens, s, hold, bits);
      assert rest[..lens[s]] == BitsOf(hold, bits)[..lens[s]];
      FoundSymbol(ty, lens, s, rest);
    case Invalid =>
      if s: nat :| StartsWith(lens, s, rest) {
        ShortCode(ty, lens, s);
        assert rest[..lens[s]] == BitsOf(hold, bits)[..lens[s]];
        PrefixIsMatch(lens, s, hold, bits);
        assert false;
      }
  }

  /** Too few bits, and no more to come: the stream is not ready. */
  lemma LeadsWait(t: seq<Code>, root: nat, ty: CodeType, lens: seq<nat>, hold: nat, bits: nat, f: Found)
    requires Usable(ty, lens) && Leads(t, root, ty, lens, hold, f) && bits < FoundBits(lens, f)
    ensures SymbolAt(ty, lens, BitsOf(hold, bits)) == Wait
  {
    UsablePrefix(ty, lens);
    var rest := BitsOf(hold, bits);
    if s: nat :| StartsWith(lens, s, rest) {
      PrefixIsMatch(lens, s, hold, bits);
      if f.Symbol? {
        OneMatch(lens, s, f.sym, hold);
      }
      assert false;
    }
    if f.Symbol? && !CompleteCode(lens) {
      ShortCode(ty, lens, f.sym);
    }
  }

  /** Read the root table until the entry's bits are there. */
  method RootEntry(r: BitReader, t: seq<Code>, root: nat, ghost ty: CodeType, ghost lens: seq<nat>)
    returns (ok: bool, here: Code, ghost f: Found)
    requires Serves(t, root, ty, lens) && r.Valid()
    modifies r
    ensures r.Valid() && r.Rest() == old(r.Rest()) && r.input == old(r.input) && r.bits % 8 == old(r.bits) % 8
    ensures (r.bits == old(r.bits) && r.hold == old(r.hold)) || Short(ty, lens, r.hold, r.bits)
    ensures !ok ==> SymbolAt(ty, lens, r.Rest()) == Wait && r.next == |r.input|
    ensures |lens| <= SymbolLimit(ty) && Leads(t, root, ty, lens, r.hold, f)
    ensures ok ==> Low(r.hold, root) < |t| && here == t[Low(r.hold, root)] && here.bits <= r.bits
  {
    hide Low, Shr, Shl, Serves, Matches, SymbolEntry, BitsOf, ByteBits, CodeBits, SymbolAt, Leads, Usable;
    ServesUsable(t, root, ty, lens);
    while true
      invariant r.Valid() && r.Rest() == old(r.Rest()) && r.input == old(r.input)
      invariant (r.bits == old(r.bits) && r.hold == old(r.hold)) || Short(ty, lens, r.hold, r.bits)
      invariant r.bits % 8 == old(r.bits) % 8
      decreases |r.input| - r.next
    {
      f := LeadsSomewhere(t, root, ty, lens, r.hold);
      LeadsEntry(t, root, ty, lens, r.hold, f);
      here := t[r.Peek(root)];
      if here.bits <= r.bits {
        return true, here, f;
      }
      LeadsWait(t, root, ty, lens, r.hold, r.bits, f);
      if r.next == |r.input| {
        AllHeld(r);
        return false, here, f;
      }
      ShortAfterPull(r, ty, lens);
    }
  }

  /** Follow the link `last` once the bits of the entry behind it are there. */
  method LinkedEntry(r: BitReader, t: seq<Code>, root: nat, last: Code, ghost ty: CodeType, ghost lens: seq<nat>)
    returns (ok: bool, here: Code, ghost f: Found)
    requires Serves(t, root, ty, lens) && r.Valid() && root <= r.bits
    requires Low(r.hold, root) < |t| && last == t[Low(r.hold, root)] && IsLink(last)
    modifies r
    ensures r.Valid() && r.Rest() == old(r.Rest()) && r.input == old(r.input) && r.bits % 8 == old(r.bits) % 8
    ensures (r.bits == old(r.bits) && r.hold == old(r.hold)) || Short(ty, lens, r.hold, r.bits)
    ensures !ok ==> SymbolAt(ty, lens, r.Rest()) == Wait && r.next == |r.input|
    ensures |lens| <= SymbolLimit(ty) && Leads(t, root, ty, lens, r.hold, f)
    ensures ok ==> last.bits + here.bits == FoundBits(lens, f) <= r.bits
    ensures ok ==> f.Symbol? && f.sym < |lens| && here.(bits := 0) == SymbolEntry(ty, f.sym, 0)
  {
    hide Low, Shr, Shl, Serves, Matches, SymbolEntry, BitsOf, ByteBits, CodeBits, SymbolAt, Leads, Usable;
    ServesUsable(t, root, ty, lens);
    ghost var low := Low(r.hold, root);
    while true
      invariant r.Valid() && r.Rest() == old(r.Rest()) && root <= r.bits && r.input == old(r.input)
      invariant Low(r.hold, root) == low
      invariant (r.bits == old(r.bits) && r.hold == old(r.hold)) || Short(ty, lens, r.hold, r.bits)
      invariant r.bits % 8 == old(r.bits) % 8
      decreases |r.input| - r.next
    {
      f := LeadsSomewhere(t, root, ty, lens, r.hold);
      LeadsEntry(t, root, ty, lens, r.hold, f);
      SecondIndex(r.hold, last.bits, last.op);
      here := t[last.val + Shr(r.Peek(last.bits + last.op), last.bits)];
      if last.bits + here.bits <= r.bits {
        return true, here, f;
      }
      LeadsWait(t, root, ty, lens, r.hold, r.bits, f);
      if r.next == |r.input| {
        AllHeld(r);
        return false, here, f;
      }
      ghost var b := r.bits;
      ShortAfterPull(r, ty, lens);
      LowOfLow(r.hold, root, b);
    }
  }

  /** Look at the next symbol: read the root table until the entry's bits are there, follow
      a link if there is one. Nothing is dropped. Not `ok` when the input ends first. */
  method FindSymbol(r: BitReader, t: seq<Code>, root: nat, ghost ty: CodeType, ghost lens: seq<nat>)
    returns (ok: bool, here: Code, len: nat, ghost f: Found)
    requires Serves(t, root, ty, lens) && r.Valid()
    modifies r
    ensures r.Valid() && r.Rest() == old(r.Rest())
    ensures f == SymbolAt(ty, lens, r.Rest()) && (ok <==> f != Wait)
    ensures ok ==> len == FoundBits(lens, f) <= r.bits
    ensures f.Symbol? ==> f.sym < |lens| <= SymbolLimit(ty) && here.(bits := 0) == SymbolEntry(ty, f.sym, 0)
    ensures f.Invalid? ==> here == Code(INVALID_OP, 1, 0)
    ensures !ok ==> r.next == |r.input|
    ensures ok ==>
      r.bits < len + 8 || (r.bits == old(r.bits) && SymbolAt(ty, lens, BitsOf(old(r.hold), old(r.bits))) == f)
    ensures r.input == old(r.input) && r.bits % 8 == old(r.bits) % 8
  {
    hide Low, Shr, Shl, Serves, Matches, SymbolEntry, BitsOf, ByteBits, CodeBits, SymbolAt, Leads, Usable, Short;
    ServesUsable(t, root, ty, lens);
    ok, here, f := RootEntry(r, t, root, ty, lens);
    if !ok {
      f := Wait;
      return false, here, 0, f;
    }
    len := here.bits;
    LeadsEntry(t, root, ty, lens, r.hold, f);
    if IsLink(here) {
      var last := here;
      ok, here, f := LinkedEntry(r, t, root, last, ty, lens);
      if !ok {
        f := Wait;
        return false, here, 0, f;
      }
      len := last.bits + here.bits;
      LeadsEntry(t, root, ty, lens, r.hold, f);
    }
    LeadsFound(t, root, ty, lens, r.hold, r.bits, f, ByteBits(r.input[r.next..]));
    LeadsTight(t, root, ty, lens, r.hold, r.bits, f);
  }

  /** The same where all codes fit the root table, as in the CODELENS state. */
  method FindShort(r: BitReader, t: seq<Code>, root: nat, ghost ty: CodeType, ghost lens: seq<nat>)
    returns (ok: bool, here: Code, ghost f: Found)
    requires Serves(t, root, ty, lens) && r.Valid() && forall i :: 0 <= i < |lens| ==> lens[i] <= root
    modifies r
    ensures r.Valid() && r.Rest() == old(r.Rest())
    ensures f == SymbolAt(ty, lens, r.Rest()) && (ok <==> f != Wait)
    ensures ok ==> here.bits == FoundBits(lens, f) <= r.bits
    ensures f.Symbol? ==> f.sym < |lens| <= SymbolLimit(ty) && here.(bits := 0) == SymbolEntry(ty, f.sym, 0)
    ensures f.Invalid? ==> here == Code(INVALID_OP, 1, 0)
    ensures !ok ==> r.next == |r.input|
    ensures ok ==>
      r.bits < here.bits + 8 || (r.bits == old(r.bits) && SymbolAt(ty, lens, BitsOf(old(r.hold), old(r.bits))) == f)
    ensures r.input == old(r.input) && r.bits % 8 == old(r.bits) % 8
  {
    hide Low, Shr, Shl, Serves, Matches, SymbolEntry, BitsOf, ByteBits, CodeBits, SymbolAt, Leads, Usable, Short;
    ServesUsable(t, root, ty, lens);
    ok, here, f := RootEntry(r, t, root, ty, lens);
    if !ok {
      f := Wait;
      return false, here, f;
    }
    LeadsEntry(t, root, ty, lens, r.hold, f);
    LeadsFound(t, root, ty, lens, r.hold, r.bits, f, ByteBits(r.input[r.next..]));
    LeadsTight(t, root, ty, lens, r.hold, r.bits, f);
  }

  /** The lookup of `inflate_fast`, with at least 15 bits at hand: the symbol is consumed. */
  method FastLookup(r: BitReader, t: seq<Code>, root: nat, ghost ty: CodeType, ghost lens: seq<nat>)
    returns (here: Code, ghost f: Found)
    requires Serves(t, root, ty, lens) && r.Valid() && 15 <= r.bits
    modifies r
    ensures f == SymbolAt(ty, lens, old(r.Rest())) != Wait
    ensures 1 <= FoundBits(lens, f) <= 15 && FoundBits(lens, f) <= |old(r.Rest())|
    ensures r.Valid() && r.Rest() == old(r.Rest())[FoundBits(lens, f)..] && r.bits == old(r.bits) - FoundBits(lens, f)
    ensures r.next == old(r.next) && r.input == old(r.input)
    ensures f.Symbol? ==> f.sym < |lens| <= SymbolLimit(ty) && here.(bits := 0) == SymbolEntry(ty, f.sym, 0)
    ensures f.Invalid? ==> here == Code(INVALID_OP, 1, 0)
  {
    hide Low, Shr, Shl, Serves, Matches, SymbolEntry, BitsOf, ByteBits, CodeBits, SymbolAt, Leads, Usable, FoundBits;
    ServesUsable(t, root, ty, lens);
    f := LeadsSomewhere(t, root, ty, lens, r.hold);
    LeadsEntry(t, root, ty, lens, r.hold, f);
    LeadsFound(t, root, ty, lens, r.hold, r.bits, f, ByteBits(r.input[r.next..]));
    here := t[r.Peek(root)];
    InvalidWidth(lens);
    r.DropBits(here.bits);
    if IsLink(here) {
      var last := here;
      here := t[last.val + r.Peek(last.op)];
      r.DropBits(here.bits);
    }
  }

  lemma InvalidWidth(lens: seq<nat>)
    ensures FoundBits(lens, Invalid) == 1
  {
  }

  /** Where a part of the stream is too short for a symbol, the symbol is longer. */
  lemma WaitConsumes(ty: CodeType, lens: seq<nat>, held: seq<bool>, more: seq<bool>)
    requires SymbolAt(ty, lens, held) == Wait && SymbolAt(ty, lens, held + more) != Wait
    ensures |held| < FoundBits(lens, SymbolAt(ty, lens, held + more))
  {
    var f := SymbolAt(ty, lens, held + more);
    if f.Symbol? && lens[f.sym] <= |held| {
      assert (held + more)[..lens[f.sym]] == held[..lens[f.sym]];
      assert StartsWith(lens, f.sym, held);
    }
  }

  /** The last byte pulled was needed. */
  ghost predicate Short(ty: CodeType, lens: seq<nat>, hold: nat, bits: nat) {
    8 <= bits && SymbolAt(ty, lens, BitsOf(hold, bits - 8)) == Wait
  }

  /** PULLBYTE where the accumulator does not yet hold a symbol. */
  method ShortAfterPull(r: BitReader, ghost ty: CodeType, ghost lens: seq<nat>)
    requires r.Valid() && r.next < |r.input| && SymbolAt(ty, lens, BitsOf(r.hold, r.bits)) == Wait
    modifies r
    ensures r.Valid() && r.Rest() == old(r.Rest()) && r.bits == old(r.bits) + 8 && r.next == old(r.next) + 1
    ensures r.input == old(r.input) && Low(r.hold, old(r.bits)) == old(r.hold)
    ensures Short(ty, lens, r.hold, r.bits)
  {
    hide SymbolAt, BitsOf, Low, ByteBits;
    r.PullByte();
    BitsLow(r.hold, r.bits - 8);
  }

  /** A symbol that is found has more bits than were there before the last pull. */
  lemma LeadsTight(t: seq<Code>, root: nat, ty: CodeType, lens: seq<nat>, hold: nat, bits: nat, f: Found)
    requires Usable(ty, lens) && Leads(t, root, ty, lens, hold, f) && FoundBits(lens, f) <= bits
    ensures SymbolAt(ty, lens, BitsOf(hold, bits)) == f
    ensures Short(ty, lens, hold, bits) ==> bits < FoundBits(lens, f) + 8
  {
    hide SymbolAt, Usable, BitsOf;
    LeadsFound(t, root, ty, lens, hold, bits, f, []);
    assert BitsOf(hold, bits) + [] == BitsOf(hold, bits);
    if FoundBits(lens, f) + 8 <= bits {
      LeadsFound(t, root, ty, lens, hold, bits - 8, f, []);
      assert BitsOf(hold, bits - 8) + [] == BitsOf(hold, bits - 8);
    }
  }

  lemma ServesUsable(t: seq<Code>, root: nat, ty: CodeType, lens: seq<nat>)
    requires Serves(t, root, ty, lens)
    ensures Usable(ty, lens) && |lens| <= SymbolLimit(ty)
  {
  }

  /** What the table shows for the accumulator, entry by entry. */
  lemma LeadsEntry(t: seq<Code>, root: nat, ty: CodeType, lens: seq<nat>, hold: nat, f: Found)
    requires Usable(ty, lens) && Leads(t, root, ty, lens, hold, f)
    ensures f != Wait && 1 <= FoundBits(lens, f) <= 15 && Low(hold, root) < |t|
    ensures f.Invalid? ==> t[Low(hold, root)] == Code(INVALID_OP, 1, 0) && !IsLink(t[Low(hold, root)])
    ensures f.Symbol? ==>
      && f.sym < |lens| && FoundBits(lens, f) == lens[f.sym]
      && var e := t[Low(hold, root)];
      if IsLink(e) then
        && e.bits == root < lens[f.sym]
        && var i := e.val + Low(Shr(hold, root), e.op);
           i < |t| && t[i].(bits := 0) == SymbolEntry(ty, f.sym, 0) && e.bits + t[i].bits == lens[f.sym]
      else e.(bits := 0) == SymbolEntry(ty, f.sym, 0) && e.bits == lens[f.sym]
  {
  }

  lemma AllHeld(r: BitReader)
    requires r.Valid() && r.next == |r.input|
    ensures r.Rest() == BitsOf(r.hold, r.bits)
  {
    assert r.input[r.next..] == [];
  }

  lemma SecondIndex(hold: nat, root: nat, op: nat)
    ensures Shr(Low(hold, root + op), root) == Low(Shr(hold, root), op)
  {
    LowSplit(hold, root, op);
  }

  lemma LowOfLow(hold: nat, a: nat, b: nat)
    requires a <= b
    ensures Low(Low(hold, b), a) == Low(hold, a)
  {
    LowSplit(hold, a, b - a);
  }
}

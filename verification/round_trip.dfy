/** `inflate` undoes the block coder: a stream of blocks, each stored, static or dynamic,
    decodes to the data its tokens stand for. */
module RoundTrip {
  import opened Bits
  import opened Canonical
  import opened BitIO
  import opened InflateTable
  import opened StaticTables
  import opened Symbols
  import opened Window
  import opened Reference
  import opened InflateSteps
  import opened CodeLengths
  import opened Blocks
  import opened Headers
  import opened Deflate
  import opened Inflate

  datatype Kind = StoredKind | StaticKind | DynamicKind

  /** The decoder, between blocks, `last` block done or not. */
  ghost predicate Between(fed: seq<bool>, last: bool, out: seq<nat>, rest: seq<bool>) {
    exists ll: seq<nat>, dl: seq<nat> :: At(fed, State(Type, last, ll, dl, out), rest)
  }

  /** At a stream position congruent to `p`, the block `bits` takes the decoder from output
      `out` to `out'`. */
  ghost predicate DecodesTo(p: nat, bits: seq<bool>, last: bool, out: seq<nat>, out': seq<nat>) {
    forall fed, tail :: Between(fed, false, out, bits + tail) && (p + |bits| + |tail|) % 8 == 0 ==>
      Between(fed, last, out', tail)
  }

  /** The three bits of a block header. */
  lemma TypeFront(fed: seq<bool>, s: State, ty: nat, last: bool, tail: seq<bool>)
    requires s.mode.Type? && !s.last && ty < 3 && At(fed, s, BitsOf(2 * ty + LastBit(last), 3) + tail)
    ensures At(fed, Opened(s, last, ty), tail)
  {
    hide At;
    var b := LastBit(last);
    var v := 2 * ty + b;
    var rest := BitsOf(v, 3) + tail;
    var r1 := BitsOf(ty, 2) + tail;
    BitsSplit(v, 1, 2);
    assert Shr(v, 1) == ty && BitsOf(v, 1) == BitsOf(b, 1);
    assert rest == BitsOf(b, 1) + r1;
    assert Shl(1, 1) == 2 && Shl(1, 2) == 4;
    ExtraFront(b, 1, r1);
    ExtraFront(ty, 2, tail);
    AfterType(fed, s, rest, b, ty);
  }

  lemma OneStatic(fed: seq<bool>, s: State, t: Static, ks: seq<Token>, last: bool, tail: seq<bool>)
    requires s.mode.Type? && !s.last && AllCoded(t, FIXED_LL, FIXED_DL, ks) && InReach(s.out, ks)
    requires Usable(LENS, FIXED_LL) && Usable(DISTS, FIXED_DL)
    requires At(fed, s, StaticBits(t, ks, last) + tail)
    ensures At(fed, State(Type, last, FIXED_LL, FIXED_DL, Expand(s.out, ks, |ks|)), tail)
  {
    hide At, BitsOf, BlockBits, AllCoded, Usable, Expand, InReach;
    var block := BlockBits(t, FIXED_LL, FIXED_DL, ks);
    assert StaticBits(t, ks, last) + tail == BitsOf(2 + LastBit(last), 3) + (block + tail);
    TypeFront(fed, s, 1, last, block + tail);
    BlockDecodes(fed, Opened(s, last, 1), t, ks, tail);
  }

  lemma StaticDecodes(t: Static, ks: seq<Token>, last: bool, out: seq<nat>, p: nat)
    requires GoodStatic(t) && GoodTokens(ks) && AllCoded(t, FIXED_LL, FIXED_DL, ks) && InReach(out, ks)
    ensures DecodesTo(p, StaticBits(t, ks, last), last, out, Expand(out, ks, |ks|))
  {
    hide At, AllCoded, Usable, Expand, InReach, GoodStatic, StaticBits;
    StaticCoded(t, ks);
    var bits, out' := StaticBits(t, ks, last), Expand(out, ks, |ks|);
    forall fed, tail | Between(fed, false, out, bits + tail)
      ensures Between(fed, last, out', tail)
    {
      var ll, dl :| At(fed, State(Type, false, ll, dl, out), bits + tail);
      OneStatic(fed, State(Type, false, ll, dl, out), t, ks, last, tail);
    }
  }

  lemma OneDynamic(fed: seq<bool>, s: State, t: Static, c: Codes, ks: seq<Token>, last: bool, tail: seq<bool>)
    requires s.mode.Type? && !s.last && CodeSizes(c) && GoodCodes(c) && AllCoded(t, c.ll, c.dl, ks)
    requires InReach(s.out, ks)
    requires At(fed, s, DynamicBits(t, c, ks, last) + tail)
    ensures At(fed, State(Type, last, c.ll, c.dl, Expand(s.out, ks, |ks|)), tail)
  {
    hide At, BitsOf, BlockBits, AllCoded, Usable, Expand, InReach, GoodCodes, HeaderBits;
    LensValid(c);
    var head, block := HeaderBits(c), BlockBits(t, c.ll, c.dl, ks);
    assert DynamicBits(t, c, ks, last) + tail == BitsOf(4 + LastBit(last), 3) + (head + (block + tail));
    TypeFront(fed, s, 2, last, head + (block + tail));
    HeaderDecodes(fed, Opened(s, last, 2), c, block + tail);
    BlockDecodes(fed, State(Len, last, c.ll, c.dl, s.out), t, ks, tail);
  }

  lemma DynamicDecodes(t: Static, c: Codes, ks: seq<Token>, last: bool, out: seq<nat>, p: nat)
    requires CodeSizes(c) && GoodCodes(c) && AllCoded(t, c.ll, c.dl, ks) && InReach(out, ks)
    ensures DecodesTo(p, DynamicBits(t, c, ks, last), last, out, Expand(out, ks, |ks|))
  {
    hide At, AllCoded, Expand, InReach, GoodCodes, DynamicBits;
    var bits, out' := DynamicBits(t, c, ks, last), Expand(out, ks, |ks|);
    forall fed, tail | Between(fed, false, out, bits + tail)
      ensures Between(fed, last, out', tail)
    {
      var ll, dl :| At(fed, State(Type, false, ll, dl, out), bits + tail);
      OneDynamic(fed, State(Type, false, ll, dl, out), t, c, ks, last, tail);
    }
  }

  /** The lengths of a stored block. */
  lemma StoredHeader(fed: seq<bool>, s: State, n: nat, tail: seq<bool>)
    requires s.mode.Stored? && n <= 65535 && |tail| % 8 == 0
    requires At(fed, s, BitsOf(n, 16) + (BitsOf(65535 - n, 16) + tail))
    ensures At(fed, s.(mode := Copy(n)), tail)
  {
    Powers();
    hide At, BitsOf, ValueOf, Shl;
    var r1 := BitsOf(65535 - n, 16) + tail;
    var rest := BitsOf(n, 16) + r1;
    ExtraFront(n, 16, r1);
    ExtraFront(65535 - n, 16, tail);
    assert rest[16..32] == r1[..16] && rest[32..] == tail;
    AfterStored(fed, s, rest, n, 65535 - n);
  }

  lemma StoredDecodes(data: seq<nat>, pad: nat, last: bool, out: seq<nat>, p: nat)
    requires |data| <= 65535 && Bytes(data) && pad < 8 && (p + |StoredBits(data, pad, last)|) % 8 == 0
    ensures DecodesTo(p, StoredBits(data, pad, last), last, out, out + data)
  {
    hide At, StoredBits;
    var bits := StoredBits(data, pad, last);
    forall fed, tail | Between(fed, false, out, bits + tail) && (p + |bits| + |tail|) % 8 == 0
      ensures Between(fed, last, out + data, tail)
    {
      var ll, dl :| At(fed, State(Type, false, ll, dl, out), bits + tail);
      OneStored(fed, State(Type, false, ll, dl, out), data, pad, last, tail);
      assert At(fed, State(Type, last, ll, dl, out + data), tail);
    }
  }

  lemma OneStored(fed: seq<bool>, s: State, data: seq<nat>, pad: nat, last: bool, tail: seq<bool>)
    requires s.mode.Type? && !s.last && |data| <= 65535 && Bytes(data) && pad < 8 && |tail| % 8 == 0
    requires At(fed, s, StoredBits(data, pad, last) + tail)
    ensures At(fed, State(Type, last, s.ll, s.dl, s.out + data), tail)
  {
    hide At, BitsOf, ByteBits;
    ByteBitsLength(data);
    var r3 := ByteBits(data) + tail;
    var r2 := BitsOf(|data|, 16) + (BitsOf(65535 - |data|, 16) + r3);
    var r1 := BitsOf(0, pad) + r2;
    assert StoredBits(data, pad, last) + tail == BitsOf(LastBit(last), 3) + r1;
    TypeFront(fed, s, 0, last, r1);
    var s1 := Opened(s, last, 0);
    AfterPad(fed, s1, r1, pad);
    assert r1[pad..] == r2;
    StoredHeader(fed, s1, |data|, r3);
    var s2 := s1.(mode := Copy(|data|));
    AfterCopy(fed, s2, data, tail);
    AfterCopied(fed, s2.(mode := Copy(0), out := s.out + data), tail);
  }

  /** Blocks one after the other. */
  lemma DecodesOn(p: nat, a: seq<bool>, b: seq<bool>, last: bool, out: seq<nat>, mid: seq<nat>, out': seq<nat>)
    requires DecodesTo(p, a, false, out, mid) && DecodesTo(p + |a|, b, last, mid, out')
    ensures DecodesTo(p, a + b, last, out, out')
  {
    hide Between;
    forall fed, tail | Between(fed, false, out, a + b + tail) && (p + |a + b| + |tail|) % 8 == 0
      ensures Between(fed, last, out', tail)
    {
      assert a + b + tail == a + (b + tail);
      assert Between(fed, false, mid, b + tail);
    }
  }

  /** One block as `_tr_flush_block` sends it; which of the formats is taken depends on sizes
      that are not modelled, so it is a parameter. */
  method FlushBlock(w: BitWriter, t: Static, lcodes: seq<nat>, dcodes: seq<nat>, kind: Kind, ks: seq<Token>,
                    data: seq<nat>,
                    last: bool, ghost out: seq<nat>)
    returns (ghost bits: seq<bool>)
    requires w.Valid() && GoodStatic(t) && GoodTokens(ks)
    requires |lcodes| == 288 && Tree(lcodes, FIXED_LL) && |dcodes| == D_CODES && Tree(dcodes, FIXED_DL)
    requires InReach(out, ks) && Expand(out, ks, |ks|) == out + data && Bytes(data)
    requires kind == StoredKind ==> |data| <= 65535
    modifies w
    ensures w.Valid() && w.Stream() == old(w.Stream()) + bits
    ensures DecodesTo(|old(w.Stream())|, bits, last, out, out + data)
  {
    hide BitsOf, ByteBits, GoodStatic, Tree, AllCoded, InReach, Expand, DecodesTo, StaticBits, DynamicBits,
         StoredBits, GoodCodes;
    ghost var p := |w.Stream()|;
    match kind {
      case StoredKind =>
        var pad := StoredBlock(w, data, last);
        bits := StoredBits(data, pad, last);
        StoredDecodes(data, pad, last, out, p);
      case StaticKind =>
        StaticBlock(w, t, lcodes, dcodes, ks, last);
        bits := StaticBits(t, ks, last);
        StaticDecodes(t, ks, last, out, p);
      case DynamicKind =>
        var c := DynamicBlock(w, t, ks, last);
        LensValid(c);
        bits := DynamicBits(t, c, ks, last);
        DynamicDecodes(t, c, ks, last, out, p);
    }
  }

  /** A block to send: its tokens, or in stored form its bytes. */
  datatype Block = Block(kind: Kind, tokens: seq<Token>, data: seq<nat>)

  /** The data of the first `n` blocks. */
  function Data(blocks: seq<Block>, n: nat): seq<nat>
    requires n <= |blocks|
  {
    if n == 0 then [] else Data(blocks, n - 1) + blocks[n - 1].data
  }

  /** The tokens of every block stand for its data, behind the data of the blocks before. */
  ghost predicate Stands(blocks: seq<Block>, i: nat)
    requires i < |blocks|
  {
    var b, out := blocks[i], Data(blocks, i);
    && GoodTokens(b.tokens) && InReach(out, b.tokens) && Expand(out, b.tokens, |b.tokens|) == out + b.data
      && Bytes(b.data)
    && (b.kind == StoredKind ==> |b.data| <= 65535)
  }

  lemma StaticMade(t: Static)
    requires LengthTables(t.lengthCode, t.baseLength) && DistTables(t.distCode, t.baseDist)
    ensures GoodStatic(t)
  {
  }

  lemma DecodesNothing()
    ensures DecodesTo(0, [], false, [], [])
  {
    hide Between;
    forall fed, tail: seq<bool> | Between(fed, false, [], [] + tail)
      ensures Between(fed, false, [], tail)
    {
      assert [] + tail == tail;
    }
  }

  /** The reference decoder decodes all of `bytes` to `data`. */
  ghost predicate Carries(bytes: seq<nat>, data: seq<nat>) {
    exists ll: seq<nat>, dl: seq<nat> :: At(ByteBits(bytes), State(Done, true, ll, dl, data), [])
  }

  /** The padding behind the last block is skipped. */
  lemma Finished(bytes: seq<nat>, sent: seq<bool>, pad: nat, data: seq<nat>)
    requires ByteBits(bytes) == sent + BitsOf(0, pad) && pad < 8 && DecodesTo(0, sent, true, [], data)
    ensures Carries(bytes, data)
  {
    hide At, BitsOf, ByteBits;
    var fed, tail := ByteBits(bytes), BitsOf(0, pad);
    AtStart(fed);
    assert At(fed, State(Type, false, [], [], []), sent + tail);
    assert Between(fed, false, [], sent + tail);
    ByteBitsLength(bytes);
    assert Between(fed, true, data, tail);
    var ll, dl :| At(fed, State(Type, true, ll, dl, data), tail);
    AfterLast(fed, State(Type, true, ll, dl, data), tail);
    assert tail[pad..] == [];
    assert At(fed, State(Done, true, ll, dl, data), []);
  }

  /** All blocks of a stream, the last one marked and padded to a byte boundary. */
  method DeflateStream(blocks: seq<Block>) returns (bytes: seq<nat>)
    requires 0 < |blocks| && forall i :: 0 <= i < |blocks| ==> Stands(blocks, i)
    ensures Bytes(bytes) && Carries(bytes, Data(blocks, |blocks|))
  {
    hide BitsOf, ByteBits, GoodStatic, Tree, InReach, Expand, DecodesTo, At;
    var w := new BitWriter();
    var lengthCode, baseLength := InitLengths();
    var distCode, baseDist := InitDists();
    var t := Static(lengthCode, baseLength, distCode, baseDist);
    StaticMade(t);
    var lcodes, dcodes := StaticTrees();
    ghost var n := |blocks|;
    DecodesNothing();
    for i := 0 to |blocks|
      invariant w.Valid() && DecodesTo(0, w.Stream(), i == |blocks|, [], Data(blocks, i))
    {
      var b := blocks[i];
      assert Stands(blocks, i);
      ghost var sent := w.Stream();
      var bits := FlushBlock(w, t, lcodes, dcodes, b.kind, b.tokens, b.data, i + 1 == |blocks|, Data(blocks, i));
      DecodesOn(0, sent, bits, i + 1 == |blocks|, [], Data(blocks, i), Data(blocks, i + 1));
    }
    ghost var sent := w.Stream();
    var pad := w.BiWindup();
    bytes := w.pending;
    Finished(bytes, sent, pad, Data(blocks, |blocks|));
  }

  /** The pieces of a sequence of bytes. */
  lemma {:induction false} PiecesAreBytes(chunks: seq<seq<nat>>)
    requires Bytes(Joined(chunks))
    ensures forall i :: 0 <= i < |chunks| ==> Bytes(chunks[i])
  {
    if chunks != [] {
      var n := |chunks| - 1;
      var front, piece := Joined(chunks[..n]), chunks[n];
      forall k | 0 <= k < |front| ensures front[k] < 256 {
        assert (front + piece)[k] == front[k];
      }
      forall k | 0 <= k < |piece| ensures piece[k] < 256 {
        assert (front + piece)[|front| + k] == piece[k];
      }
      PiecesAreBytes(chunks[..n]);
      forall i | 0 <= i < |chunks| ensures Bytes(chunks[i]) {
        assert i < n ==> chunks[i] == chunks[..n][i];
      }
    }
  }

  lemma AtTheEnd(fed: seq<bool>, s: State, rest: seq<bool>, n: nat, bytes: seq<nat>, data: seq<nat>)
    requires fed == ByteBits(bytes) && Carries(bytes, data) && ToTheEnd(fed, s, rest, n) && |data| <= n
    ensures s.out == data && s.mode.Done? && rest == []
  {
    hide At;
    var ll, dl :| At(ByteBits(bytes), State(Done, true, ll, dl, data), []);
  }

  /** `inflate`, given a stream in pieces of any size and enough room in buffers of any size
      from the last piece on, ends with exactly the data, at the end of the input. */
  method InflateStream(chunks: seq<seq<nat>>, rooms: seq<nat>, ghost data: seq<nat>)
    returns (z: Inflater, result: seq<nat>)
    requires 0 < |chunks| == |rooms| && Bytes(Joined(chunks)) && Carries(Joined(chunks), data)
    ensures z.Ready() && z.output == result
    ensures !z.ranOut && |data| <= Total(rooms, FinalPiece(chunks), |rooms|) ==>
      result == data && z.mode == DONE && z.r.Rest() == []
  {
    hide Step, At, Settled, ByteBits, BitsOf, Carries, ToTheEnd, FinalPiece, Joined;
    PiecesAreBytes(chunks);
    var spare: nat;
    z, result, spare := InflateCalls(chunks, rooms);
    ghost var n := Total(rooms, FinalPiece(chunks), |rooms|);
    if !z.ranOut && |data| <= n {
      AtTheEnd(z.fed, z.Abs(), z.r.Rest(), n, Joined(chunks), data);
    }
  }

  /** `inflate` undoes `deflate`: whatever the blocks, however the compressed bytes are cut
      into pieces and whatever buffers receive the output. */
  method InflateUndoesDeflate(blocks: seq<Block>, cut: seq<nat> -> seq<seq<nat>>, offer: seq<nat> -> seq<nat>)
    returns (bytes: seq<nat>, z: Inflater, result: seq<nat>)
    requires 0 < |blocks| && forall i :: 0 <= i < |blocks| ==> Stands(blocks, i)
    requires forall b :: 0 < |cut(b)| == |offer(b)| && Joined(cut(b)) == b
    ensures z.Ready() && z.output == result
    ensures !z.ranOut && |Data(blocks, |blocks|)| <= Total(offer(bytes), FinalPiece(cut(bytes)), |offer(bytes)|) ==>
      result == Data(blocks, |blocks|) && z.mode == DONE && z.r.Rest() == []
  {
    hide Stands, Carries, FinalPiece, Data, Joined;
    bytes := DeflateStream(blocks);
    z, result := InflateStream(cut(bytes), offer(bytes), Data(blocks, |blocks|));
  }
}
